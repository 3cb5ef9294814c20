/** Recovery of a protected image and its sidecar, as a protocol over file-system steps any of which
    may fail or be cut off by a crash. */
module Recovery {
  import opened Basics
  import opened Partition
  import opened Pipeline
  import opened SignedManifest
  import opened SignedImage

  // ------------------------------------------------------------- the file system

  /** The two protected files, and the temporary names, which no user path collides with. */
  datatype Name = Target | TargetSidecar | Temporary(of: bool, pid: nat, sequence: nat)

  /** `synced`: the content has reached stable storage. `mode`: its permissions. */
  datatype File = File(content: Bytes, synced: bool, mode: nat)

  /** The permissions a new file gets from its process. */
  const NEW_FILE_MODE: nat := 0

  /** `live` is what processes see; `disk` is, for each name, every entry a crash may bring back: the
      last one synced with its directory, and all since. */
  datatype Fs = Fs(live: map<Name, File>, disk: map<Name, set<Option<File>>>)

  /** How a crash turns out: which of the possible entries is found under each name, and what is in
      a file that was never synced. */
  datatype CrashImage = CrashImage(pick: Name -> Option<File>, garbage: Name -> Bytes)

  /** What happens to a step: nothing special, an I/O error (a write may get part of the way), or a
      crash before it takes effect. */
  datatype Fault = NoFault | IoError(written: nat) | Crash(image: CrashImage)

  datatype Status = Fine | Failed | Crashed

  datatype Op =
    | CreateNew(name: Name)
    | WriteAll(name: Name, payload: Bytes)
    | Stat(name: Name)
    | SetPermissions(name: Name, mode: nat)
    | SyncFile(name: Name)
    | Rename(from: Name, to: Name)
    | SyncDirectory(name: Name)
    | RemoveFile(name: Name)
    | ReadFile(name: Name)

  function Shown(e: Option<File>): (b: Option<Bytes>) {
    if e.Some? then Some(e.value.content) else None
  }

  function Live(fs: Fs, n: Name): (e: Option<File>) {
    if n in fs.live then Some(fs.live[n]) else None
  }

  function Disk(fs: Fs, n: Name): (es: set<Option<File>>) {
    if n in fs.disk then fs.disk[n] else {None}
  }

  function Entry(fs: Fs, n: Name): (b: Option<Bytes>) {
    Shown(Live(fs, n))
  }

  /** The entry of `n` becomes `e`; until the directory is synced the earlier ones may come back. */
  function Put(fs: Fs, n: Name, e: Option<File>): (after: Fs) {
    Fs(if e.Some? then fs.live[n := e.value] else fs.live - {n}, fs.disk[n := Disk(fs, n) + {e}])
  }

  function Found(fs: Fs, n: Name, c: CrashImage): (e: Option<File>) {
    var entry := if c.pick(n) in Disk(fs, n) then c.pick(n) else Live(fs, n);
    match entry
    case None => None
    case Some(f) => Some(File(if f.synced then f.content else c.garbage(n), true, f.mode))
  }

  function AfterCrash(fs: Fs, c: CrashImage): (after: Fs) {
    var found := map n | n in fs.live.Keys + fs.disk.Keys && Found(fs, n, c).Some? :: Found(fs, n, c).value;
    Fs(found, map n | n in found :: {Some(found[n])})
  }

  /** One system call under one fault. Directory syncing is a no-op away from Unix. */
  function Exec(fs: Fs, op: Op, fault: Fault, unix: bool): (r: (Status, Fs)) {
    match fault
    case Crash(c) => (Crashed, AfterCrash(fs, c))
    case IoError(k) =>
      if op.WriteAll? && op.name in fs.live
      then (Failed, Put(fs, op.name, Some(File(op.payload[..Min(k, |op.payload|)], false, fs.live[op.name].mode))))
      else (Failed, fs)
    case NoFault =>
      match op
      case CreateNew(n) =>
        if n in fs.live then (Failed, fs) else (Fine, Put(fs, n, Some(File([], false, NEW_FILE_MODE))))
      case WriteAll(n, payload) =>
        if n !in fs.live then (Failed, fs) else (Fine, Put(fs, n, Some(File(payload, false, fs.live[n].mode))))
      case SyncFile(n) =>
        if n !in fs.live then (Failed, fs) else (Fine, Put(fs, n, Some(fs.live[n].(synced := true))))
      case SetPermissions(n, mode) =>
        if n !in fs.live then (Failed, fs) else (Fine, Put(fs, n, Some(fs.live[n].(mode := mode))))
      case Rename(from, to) =>
        if from !in fs.live then (Failed, fs) else (Fine, Put(Put(fs, from, None), to, Some(fs.live[from])))
      case SyncDirectory(n) =>
        (Fine, if unix then fs.(disk := fs.disk[n := {Live(fs, n)}]) else fs)
      case RemoveFile(n) =>
        if n !in fs.live then (Failed, fs) else (Fine, Put(fs, n, None))
      case _ =>
        if op.name in fs.live then (Fine, fs) else (Failed, fs)
  }

  // ------------------------------------------------------------- the invariant

  ghost predicate Whole(e: Option<File>, allowed: iset<Option<Bytes>>) {
    Shown(e) in allowed && (e.Some? ==> e.value.synced)
  }

  /** Whichever way a crash falls now, `n` will hold one of `allowed`, whole. */
  ghost predicate Settled(fs: Fs, n: Name, allowed: iset<Option<Bytes>>) {
    Whole(Live(fs, n), allowed) && forall e :: e in Disk(fs, n) ==> Whole(e, allowed)
  }

  /** Both protected files are settled, each within its own set. */
  ghost predicate Safe(fs: Fs, images: iset<Option<Bytes>>, sidecars: iset<Option<Bytes>>) {
    Settled(fs, Target, images) && Settled(fs, TargetSidecar, sidecars)
  }

  function Allowed(n: Name, images: iset<Option<Bytes>>, sidecars: iset<Option<Bytes>>): (s: iset<Option<Bytes>>) {
    if n == Target then images else sidecars
  }

  /** What the protocol may do: anything to a temporary file; to a protected one only replace it by
      a synced temporary with an allowed content, sync it, or look at it. */
  ghost predicate Permitted(fs: Fs, op: Op, images: iset<Option<Bytes>>, sidecars: iset<Option<Bytes>>) {
    match op
    case CreateNew(n) => n.Temporary?
    case WriteAll(n, _) => n.Temporary?
    case RemoveFile(n) => n.Temporary?
    case SetPermissions(n, _) => n.Temporary?
    case Rename(from, to) =>
      && from.Temporary? && !to.Temporary?
      && (from in fs.live ==> fs.live[from].synced && Some(fs.live[from].content) in Allowed(to, images, sidecars))
    case _ => true
  }

  lemma CrashOutcome(fs: Fs, c: CrashImage, n: Name)
    ensures Live(AfterCrash(fs, c), n) == Found(fs, n, c)
    ensures Disk(AfterCrash(fs, c), n) == {Found(fs, n, c)}
  {
  }

  /** After any crash a settled file holds one of the entries it could have, whole. */
  lemma CrashKeepsSettled(fs: Fs, c: CrashImage, n: Name, allowed: iset<Option<Bytes>>)
    requires Settled(fs, n, allowed)
    ensures Settled(AfterCrash(fs, c), n, allowed)
    ensures Live(AfterCrash(fs, c), n) == if c.pick(n) in Disk(fs, n) then c.pick(n) else Live(fs, n)
    ensures Disk(AfterCrash(fs, c), n) == {Live(AfterCrash(fs, c), n)}
  {
    CrashOutcome(fs, c, n);
    hide AfterCrash;
    var e := if c.pick(n) in Disk(fs, n) then c.pick(n) else Live(fs, n);
    assert Whole(e, allowed);
  }

  /** No permitted step, however it goes, breaks the invariant. */
  lemma StepKeepsSafe(fs: Fs, op: Op, fault: Fault, unix: bool, images: iset<Option<Bytes>>, sidecars: iset<Option<Bytes>>)
    requires Safe(fs, images, sidecars) && Permitted(fs, op, images, sidecars)
    ensures Safe(Exec(fs, op, fault, unix).1, images, sidecars)
  {
    if fault.Crash? {
      CrashKeepsSettled(fs, fault.image, Target, images);
      CrashKeepsSettled(fs, fault.image, TargetSidecar, sidecars);
    } else {
      StepKeepsSettled(fs, op, fault, unix, Target, images, sidecars);
      StepKeepsSettled(fs, op, fault, unix, TargetSidecar, images, sidecars);
    }
  }

  lemma StepKeepsSettled(fs: Fs, op: Op, fault: Fault, unix: bool, n: Name, images: iset<Option<Bytes>>, sidecars: iset<Option<Bytes>>)
    requires !fault.Crash? && !n.Temporary? && Permitted(fs, op, images, sidecars) && Settled(fs, n, Allowed(n, images, sidecars))
    ensures Settled(Exec(fs, op, fault, unix).1, n, Allowed(n, images, sidecars))
  {
    hide AfterCrash;
  }

  /** Any run of steps, each permitted when it is taken, under any faults. */
  function ExecAll(fs: Fs, steps: seq<(Op, Fault)>, unix: bool): (after: Fs)
    decreases |steps|
  {
    if steps == [] then fs else ExecAll(Exec(fs, steps[0].0, steps[0].1, unix).1, steps[1..], unix)
  }

  ghost predicate PermittedRun(fs: Fs, steps: seq<(Op, Fault)>, unix: bool, images: iset<Option<Bytes>>, sidecars: iset<Option<Bytes>>)
    decreases |steps|
  {
    steps == [] ||
    (Permitted(fs, steps[0].0, images, sidecars) && PermittedRun(Exec(fs, steps[0].0, steps[0].1, unix).1, steps[1..], unix, images, sidecars))
  }

  /** The invariant holds over every such run, so each protected file always holds an allowed content
      whole. */
  lemma {:induction false} RunsKeepSafe(fs: Fs, steps: seq<(Op, Fault)>, unix: bool, images: iset<Option<Bytes>>, sidecars: iset<Option<Bytes>>)
    requires Safe(fs, images, sidecars) && PermittedRun(fs, steps, unix, images, sidecars)
    ensures Safe(ExecAll(fs, steps, unix), images, sidecars)
    ensures Entry(ExecAll(fs, steps, unix), Target) in images && Entry(ExecAll(fs, steps, unix), TargetSidecar) in sidecars
    decreases |steps|
  {
    if steps != [] {
      StepKeepsSafe(fs, steps[0].0, steps[0].1, unix, images, sidecars);
      RunsKeepSafe(Exec(fs, steps[0].0, steps[0].1, unix).1, steps[1..], unix, images, sidecars);
    }
  }

  /** A step that fails without a crash leaves both protected files as they were. */
  lemma FailedStepKeepsFiles(fs: Fs, op: Op, fault: Fault, unix: bool, n: Name)
    requires Exec(fs, op, fault, unix).0.Failed? && !n.Temporary? && (op.WriteAll? ==> op.name.Temporary?)
    ensures Keeps(fs, Exec(fs, op, fault, unix).1, n)
  {
  }

  lemma SafeGrows(fs: Fs, images: iset<Option<Bytes>>, sidecars: iset<Option<Bytes>>, moreImages: iset<Option<Bytes>>, moreSidecars: iset<Option<Bytes>>)
    requires Safe(fs, images, sidecars) && images <= moreImages && sidecars <= moreSidecars
    ensures Safe(fs, moreImages, moreSidecars)
  {
  }

  ghost predicate Keeps(before: Fs, after: Fs, n: Name) {
    Live(after, n) == Live(before, n) && Disk(after, n) == Disk(before, n)
  }

  /** Nothing but these two names has changed. */
  ghost predicate OnlyTouches(before: Fs, after: Fs, a: Name, b: Name) {
    forall n :: n != a && n != b ==> Keeps(before, after, n)
  }

  lemma TouchesAgain(a: Fs, b: Fs, c: Fs, n: Name, m: Name)
    requires OnlyTouches(a, b, n, m) && OnlyTouches(b, c, n, m)
    ensures OnlyTouches(a, c, n, m)
  {
    hide Live, Disk;
    forall k | k != n && k != m
      ensures Keeps(a, c, k)
    {
      assert Keeps(a, b, k) && Keeps(b, c, k);
    }
  }

  lemma Untouched(a: Fs, b: Fs, n: Name, m: Name, k: Name)
    requires OnlyTouches(a, b, n, m) && k != n && k != m
    ensures Live(b, k) == Live(a, k) && Disk(b, k) == Disk(a, k) && (k in b.live <==> k in a.live)
  {
    assert Keeps(a, b, k);
  }

  lemma TouchesMore(a: Fs, b: Fs, n: Name, m: Name)
    requires OnlyTouches(a, b, n, n)
    ensures OnlyTouches(a, b, m, n) && OnlyTouches(a, b, n, m)
  {
    hide Live, Disk;
  }

  predicate Enabled(fs: Fs, op: Op) {
    match op
    case CreateNew(n) => n !in fs.live
    case Rename(from, _) => from in fs.live
    case SyncDirectory(_) => true
    case _ => op.name in fs.live
  }

  /** What a call that went well has done to the names it is about. */
  ghost predicate Effect(fs: Fs, op: Op, after: Fs, unix: bool) {
    match op
    case CreateNew(n) => Live(after, n) == Some(File([], false, NEW_FILE_MODE))
    case WriteAll(n, payload) => n in fs.live && Live(after, n) == Some(File(payload, false, fs.live[n].mode))
    case SyncFile(n) => n in fs.live && Live(after, n) == Some(fs.live[n].(synced := true))
    case SetPermissions(n, mode) => n in fs.live && Live(after, n) == Some(fs.live[n].(mode := mode))
    case Rename(from, to) => Live(after, to) == Live(fs, from) && (from != to ==> from !in after.live)
    case SyncDirectory(n) => Live(after, n) == Live(fs, n) && (unix ==> Disk(after, n) == {Live(fs, n)})
    case RemoveFile(n) => n !in after.live
    case _ => after == fs
  }

  function NameOf(op: Op): (n: Name) {
    if op.Rename? then op.to else op.name
  }

  /** Everything the protocol needs to know of a call that no crash cut off. */
  lemma StepEffect(fs: Fs, op: Op, fault: Fault, unix: bool)
    requires !fault.Crash?
    ensures var (s, after) := Exec(fs, op, fault, unix);
            && !s.Crashed? && (s.Fine? ==> fault.NoFault? && Enabled(fs, op) && Effect(fs, op, after, unix))
            && (fault.NoFault? ==> (s.Fine? <==> Enabled(fs, op)))
            && (s.Failed? && (fault.NoFault? || !op.WriteAll?) ==> after == fs)
            && OnlyTouches(fs, after, if op.Rename? then op.from else op.name, NameOf(op))
  {
    hide AfterCrash;
  }

  /** Whichever entry a crash brings back under `n` has this content. */
  ghost predicate OnDisk(fs: Fs, n: Name, content: Option<Bytes>) {
    forall e :: e in Disk(fs, n) ==> Shown(e) == content
  }

  ghost predicate NoFaults(faults: nat -> Fault) {
    forall k: nat :: faults(k).NoFault?
  }

  // ------------------------------------------------------------- the code

  datatype RecoveryReport = RecoveryReport(releaseCounter: u64, keyId: KeyId, restoredBytes: nat, merkleRoot: Digest)
  datatype Outcome = Done(report: RecoveryReport) | NotDone | Cut

  /** The bytes read from the recovery sources (`None`: unreadable) and the trust policy. */
  datatype Source = Source(image: Option<Bytes>, sidecar: Option<Bytes>, policy: Policy) {
    ghost predicate Readable() {
      sidecar.Some? ==> |sidecar.value| <= MAX_SLICE_BYTES
    }
  }

  ghost predicate Authorised(H: Hash, S: Ecdsa, e: Source) {
    && e.image.Some? && e.image.value != [] && e.sidecar.Some? && e.sidecar.value != []
    && SignedValidated(H, S, e.image.value, e.sidecar.value, e.policy).Ok?
  }

  ghost predicate Restored(fs: Fs, e: Source) {
    Entry(fs, Target) == e.image && Entry(fs, TargetSidecar) == e.sidecar
  }

  /** No crash can undo the restored pair. */
  ghost predicate Durable(fs: Fs, e: Source) {
    OnDisk(fs, Target, e.image) && OnDisk(fs, TargetSidecar, e.sidecar)
  }

  ghost function ReportFor(H: Hash, S: Ecdsa, e: Source): (r: RecoveryReport)
    requires Authorised(H, S, e)
  {
    var v := SignedValidated(H, S, e.image.value, e.sidecar.value, e.policy).value;
    RecoveryReport(v.releaseCounter, v.keyId, |e.image.value|, v.boot.merkleRoot)
  }

  /** An attempt runs in a process of its own, against its own plan of faults. */
  datatype Event = Attempt(source: Source, pid: nat, faults: nat -> Fault) | PowerLoss(image: CrashImage)

  /** Nothing pending: what is visible is on disk. */
  ghost predicate AtRest(fs: Fs) {
    forall n :: Disk(fs, n) == {Live(fs, n)} && (n in fs.live ==> fs.live[n].synced)
  }

  ghost predicate BroughtImage(H: Hash, S: Ecdsa, events: seq<Event>, o: Option<Bytes>) {
    exists k :: 0 <= k < |events| && events[k].Attempt? && Authorised(H, S, events[k].source) && events[k].source.image == o
  }

  ghost predicate BroughtSidecar(H: Hash, S: Ecdsa, events: seq<Event>, o: Option<Bytes>) {
    exists k :: 0 <= k < |events| && events[k].Attempt? && Authorised(H, S, events[k].source) && events[k].source.sidecar == o
  }

  /** The original image, and every image an authorised attempt brought. */
  ghost function Images(H: Hash, S: Ecdsa, original: Option<Bytes>, events: seq<Event>): (s: iset<Option<Bytes>>) {
    iset{original} + iset o: Option<Bytes> | BroughtImage(H, S, events, o)
  }

  ghost function Sidecars(H: Hash, S: Ecdsa, original: Option<Bytes>, events: seq<Event>): (s: iset<Option<Bytes>>) {
    iset{original} + iset o: Option<Bytes> | BroughtSidecar(H, S, events, o)
  }

  /** `image` is the source's image up to zero padding, or the two validations expose a collision. */
  ghost predicate Pins(H: Hash, S: Ecdsa, image: Bytes, e: Source, policy: Policy)
    requires Authorised(H, S, e)
  {
    && V2Parsed(S, e.sidecar.value, policy).Ok?
    && var proofs := V2Parsed(S, e.sidecar.value, policy).value.manifest.proofs;
    && |proofs| == BlockCount(image) == BlockCount(e.image.value)
    && (|| ZeroPad(image) == ZeroPad(e.image.value)
        || CollisionIn(H, ValidateInputs(H, image, proofs) + ValidateInputs(H, e.image.value, proofs)))
  }

  /** A sidecar that came from an authorised source can only be paired with that source's image,
      up to zero padding, or the two validations expose a collision: a half-finished recovery does
      not validate some third image. */
  lemma MixedPairPins(H: Hash, S: Ecdsa, fs: Fs, e: Source, policy: Policy)
    requires Authorised(H, S, e) && Entry(fs, TargetSidecar) == e.sidecar && Target in fs.live
    requires SignedValidated(H, S, fs.live[Target].content, e.sidecar.value, policy).Ok?
    ensures Pins(H, S, fs.live[Target].content, e, policy)
  {
    hide SignedValidated, V2Parsed, ZeroPad, ValidateInputs, BlockCount;
    SidecarPinsImage(H, S, fs.live[Target].content, e.image.value, e.sidecar.value, policy, e.policy);
  }

  /** What `Safe` means for a reader of the disk after any run: the target is the original or an
      authorised image, whole; and once the sidecar is no longer the original one, it is that of an
      authorised attempt, and the pair validates only for that attempt's image. */
  lemma ReaderSeesAuthorisedPair(H: Hash, S: Ecdsa, fs: Fs, original: Option<Bytes>, originalSidecar: Option<Bytes>, events: seq<Event>, policy: Policy)
    requires Safe(fs, Images(H, S, original, events), Sidecars(H, S, originalSidecar, events))
    ensures Entry(fs, Target) == original || BroughtImage(H, S, events, Entry(fs, Target))
    ensures Entry(fs, TargetSidecar) != originalSidecar && Target in fs.live && TargetSidecar in fs.live
            && SignedValidated(H, S, fs.live[Target].content, fs.live[TargetSidecar].content, policy).Ok? ==>
              exists k :: 0 <= k < |events| && events[k].Attempt? && Authorised(H, S, events[k].source)
                          && events[k].source.sidecar == Entry(fs, TargetSidecar)
                          && Pins(H, S, fs.live[Target].content, events[k].source, policy)
  {
    hide SignedValidated, V2Parsed, ZeroPad, ValidateInputs, BlockCount;
    if Entry(fs, TargetSidecar) != originalSidecar && Target in fs.live && TargetSidecar in fs.live
       && SignedValidated(H, S, fs.live[Target].content, fs.live[TargetSidecar].content, policy).Ok? {
      assert BroughtSidecar(H, S, events, Entry(fs, TargetSidecar));
      var k :| 0 <= k < |events| && events[k].Attempt? && Authorised(H, S, events[k].source)
               && events[k].source.sidecar == Entry(fs, TargetSidecar);
      MixedPairPins(H, S, fs, events[k].source, policy);
    }
  }

  /** The order of the protocol: a target that is no longer the original sits beside the source's
      sidecar, never beside an older one. */
  ghost predicate SidecarFirst(before: Fs, after: Fs, e: Source) {
    Entry(after, Target) in OriginalImages(before) || Entry(after, TargetSidecar) == e.sidecar
  }

  ghost function OriginalImages(fs: Fs): (s: iset<Option<Bytes>>) {
    iset{Entry(fs, Target)} + iset e: Option<File> | e in Disk(fs, Target) :: Shown(e)
  }

  ghost predicate TemporariesFree(fs: Fs, pid: nat, sequence: nat) {
    Temporary(false, pid, sequence) !in fs.live && Temporary(true, pid, sequence + 1) !in fs.live
  }

  /** After event `k` of those before `end` nothing has come but, on Unix, power losses. */
  ghost predicate Undisturbed(events: seq<Event>, k: nat, end: nat, unix: bool)
    requires k < end <= |events|
  {
    (unix || k + 1 == end) && forall j :: k < j < end ==> events[j].PowerLoss?
  }

  lemma AttemptDisturbs(events: seq<Event>, k: nat, unix: bool)
    requires k < |events| && events[k].Attempt?
    ensures var end := k + 1;
            forall i :: 0 <= i < k ==> !Undisturbed(events, i, end, unix)
  {
  }

  /** The pair is exactly what this attempt brought, on Unix whatever crash may come. */
  ghost predicate Recovered(H: Hash, S: Ecdsa, fs: Fs, event: Event, unix: bool) {
    event.Attempt? && Authorised(H, S, event.source) && Restored(fs, event.source) && (unix ==> Durable(fs, event.source))
  }

  lemma SafeAfterCrash(fs: Fs, c: CrashImage, images: iset<Option<Bytes>>, sidecars: iset<Option<Bytes>>)
    requires Safe(fs, images, sidecars)
    ensures Safe(AfterCrash(fs, c), images, sidecars)
  {
    CrashKeepsSettled(fs, c, Target, images);
    CrashKeepsSettled(fs, c, TargetSidecar, sidecars);
  }

  lemma BroughtIsAllowed(H: Hash, S: Ecdsa, events: seq<Event>, k: nat, images: iset<Option<Bytes>>, sidecars: iset<Option<Bytes>>,
                         image: Option<Bytes>, sidecar: Option<Bytes>)
    requires k < |events| && events[k].Attempt?
    requires images == Images(H, S, image, events) && sidecars == Sidecars(H, S, sidecar, events)
    ensures Authorised(H, S, events[k].source) ==> events[k].source.image in images && events[k].source.sidecar in sidecars
  {
    hide Authorised;
  }

  function ModeOf(fs: Fs, n: Name): (mode: Option<nat>) {
    if n in fs.live then Some(fs.live[n].mode) else None
  }

  /** The calls of one replacement, in order; permissions are copied from a target that is there. */
  function PrepareCalls(temporary: Name, target: Name, payload: Bytes, mode: Option<nat>): (ops: seq<Op>) {
    [CreateNew(temporary), WriteAll(temporary, payload)] + PermissionCalls(temporary, target, mode) + [SyncFile(temporary)]
  }

  function PermissionCalls(temporary: Name, target: Name, mode: Option<nat>): (ops: seq<Op>) {
    [Stat(target)] + if mode.Some? then [SetPermissions(temporary, mode.value)] else []
  }

  function InstallCalls(temporary: Name, target: Name): (ops: seq<Op>) {
    [Rename(temporary, target), SyncFile(target), SyncDirectory(target)]
  }

  function ReplaceCalls(temporary: Name, target: Name, payload: Bytes, mode: Option<nat>): (ops: seq<Op>) {
    PrepareCalls(temporary, target, payload, mode) + InstallCalls(temporary, target)
  }

  /** The calls of a whole recovery: sidecar, then target, then both read back. */
  function RecoveryCalls(before: Fs, e: Source, pid: nat, sequence: nat): (ops: seq<Op>)
    requires e.image.Some? && e.sidecar.Some?
  {
    ReplaceCalls(Temporary(false, pid, sequence), TargetSidecar, e.sidecar.value, ModeOf(before, TargetSidecar))
    + ReplaceCalls(Temporary(true, pid, sequence + 1), Target, e.image.value, ModeOf(before, Target))
    + [ReadFile(Target), ReadFile(TargetSidecar)]
  }

  lemma CallsInOrder(before: seq<Op>, a: seq<Op>, b: seq<Op>, c: seq<Op>)
    ensures ((before + a) + b) + c == before + (a + b + c)
    ensures |a| == 1 && |b| == 1 && |c| == 1 ==> a + b + c == [a[0], b[0], c[0]]
    ensures |a| == 2 ==> (before + [a[0]]) + [a[1]] == before + a
  {
  }

  /** A file that was there keeps its permissions. */
  ghost predicate KeepsMode(before: Fs, after: Fs, n: Name) {
    n in before.live ==> n in after.live && after.live[n].mode == before.live[n].mode
  }

  /** How an attempt without faults goes. It fails exactly when a temporary of one of its two names
      was left behind: by the sidecar's before anything has changed, by the target's after the sidecar
      was replaced. Either way the clean-up removes what was in the way. */
  ghost predicate FaultFree(before: Fs, after: Fs, e: Source, o: Outcome, pid: nat, sequence: nat) {
    var first, second := Temporary(false, pid, sequence), Temporary(true, pid, sequence + 1);
    && !o.Cut? && (o.Done? <==> TemporariesFree(before, pid, sequence))
    && first !in after.live
    && (o.Done? ==> KeepsMode(before, after, Target) && KeepsMode(before, after, TargetSidecar))
    && (if first in before.live then Keeps(before, after, Target) && Keeps(before, after, TargetSidecar) && Keeps(before, after, second)
        else second !in after.live && Entry(after, TargetSidecar) == e.sidecar && (!o.Done? ==> Keeps(before, after, Target)))
  }

  lemma NarrowImages(fs: Fs, images: iset<Option<Bytes>>, sidecars: iset<Option<Bytes>>)
    requires Safe(fs, images, sidecars)
    ensures Safe(fs, OriginalImages(fs), sidecars) && OriginalImages(fs) <= images
  {
  }

  lemma NarrowSidecars(fs: Fs, images: iset<Option<Bytes>>, sidecars: iset<Option<Bytes>>, e: Source, unix: bool)
    requires Safe(fs, images, sidecars) && Entry(fs, TargetSidecar) == e.sidecar
    requires unix ==> OnDisk(fs, TargetSidecar, e.sidecar)
    ensures Safe(fs, images, if unix then iset{e.sidecar} else sidecars)
  {
  }

  lemma FirstHalfOrder(before: Fs, after: Fs, e: Source, images: iset<Option<Bytes>>, sidecars: iset<Option<Bytes>>)
    requires images == OriginalImages(before) && Safe(after, images, sidecars)
    ensures SidecarFirst(before, after, e)
  {
  }

  lemma SecondHalfOrder(after: Fs, images: iset<Option<Bytes>>, sidecars: iset<Option<Bytes>>, e: Source, unix: bool)
    requires Safe(after, images, sidecars) && (unix ==> sidecars == iset{e.sidecar})
    ensures unix ==> Entry(after, TargetSidecar) == e.sidecar
  {
  }

  /** A completed recovery survives every later crash exactly when no other entry is left on disk,
      which is what the last step buys on Unix. */
  lemma RestoredSurvivesCrashes(fs: Fs, e: Source, images: iset<Option<Bytes>>, sidecars: iset<Option<Bytes>>)
    requires Safe(fs, images, sidecars) && Restored(fs, e)
    ensures (forall c: CrashImage :: Restored(AfterCrash(fs, c), e)) <==> Durable(fs, e)
  {
    forall c: CrashImage | Durable(fs, e)
      ensures Restored(AfterCrash(fs, c), e)
    {
      CrashKeepsRestored(fs, c, e, images, sidecars);
    }
    if x :| x in Disk(fs, Target) && Shown(x) != e.image {
      CrashKeepsSettled(fs, CrashImage(_ => x, _ => []), Target, images);
    }
    if x :| x in Disk(fs, TargetSidecar) && Shown(x) != e.sidecar {
      CrashKeepsSettled(fs, CrashImage(_ => x, _ => []), TargetSidecar, sidecars);
    }
  }

  lemma CrashKeepsRestored(fs: Fs, c: CrashImage, e: Source, images: iset<Option<Bytes>>, sidecars: iset<Option<Bytes>>)
    requires Safe(fs, images, sidecars) && Restored(fs, e) && Durable(fs, e)
    ensures Restored(AfterCrash(fs, c), e) && Durable(AfterCrash(fs, c), e)
  {
    CrashKeepsSettled(fs, c, Target, images);
    CrashKeepsSettled(fs, c, TargetSidecar, sidecars);
    hide AfterCrash;
  }

  /** Why the temporary file is synced first: renaming an unsynced one lets a crash leave any bytes
      at all in the target. */
  lemma UnsyncedRenameIsUnsafe(fs: Fs, temporary: Name, garbage: Bytes, unix: bool)
    requires temporary.Temporary? && temporary in fs.live && !fs.live[temporary].synced
    ensures var renamed := Exec(fs, Rename(temporary, Target), NoFault, unix).1;
            Entry(AfterCrash(renamed, CrashImage(_ => Live(renamed, Target), _ => garbage)), Target) == Some(garbage)
  {
    var renamed := Exec(fs, Rename(temporary, Target), NoFault, unix).1;
    CrashOutcome(renamed, CrashImage(_ => Live(renamed, Target), _ => garbage), Target);
    hide AfterCrash;
  }

  class Machine {
    var fs: Fs
    var sequence: nat
    var pid: nat
    var faults: nat -> Fault
    var clock: nat
    const unix: bool
    /** Every system call made so far. */
    ghost var log: seq<Op>

    constructor (files: Fs, onUnix: bool)
      ensures fs == files && unix == onUnix
    {
      fs := files;
      unix := onUnix;
      sequence, pid, clock := 0, 0, 0;
      faults := _ => NoFault;
      log := [];
    }

    /** The next system call, under the fault the environment has in store for it. */
    method Do(op: Op, ghost images: iset<Option<Bytes>>, ghost sidecars: iset<Option<Bytes>>) returns (s: Status)
      requires Safe(fs, images, sidecars) && Permitted(fs, op, images, sidecars)
      modifies this`fs, this`clock, this`log
      ensures (s, fs) == Exec(old(fs), op, faults(old(clock)), unix)
      ensures clock == old(clock) + 1 && log == old(log) + [op]
      ensures Safe(fs, images, sidecars)
      ensures s.Failed? ==> Keeps(old(fs), fs, Target) && Keeps(old(fs), fs, TargetSidecar)
      ensures s.Fine? ==> faults(old(clock)).NoFault? && Enabled(old(fs), op) && Effect(old(fs), op, fs, unix)
      ensures faults(old(clock)).NoFault? ==> !s.Crashed? && (s.Fine? <==> Enabled(old(fs), op))
      ensures s.Failed? && (faults(old(clock)).NoFault? || !op.WriteAll?) ==> fs == old(fs)
      ensures !s.Crashed? ==> OnlyTouches(old(fs), fs, if op.Rename? then op.from else op.name, NameOf(op))
    {
      StepKeepsSafe(fs, op, faults(clock), unix, images, sidecars);
      if Exec(fs, op, faults(clock), unix).0.Failed? {
        FailedStepKeepsFiles(fs, op, faults(clock), unix, Target);
        FailedStepKeepsFiles(fs, op, faults(clock), unix, TargetSidecar);
      }
      if faults(clock).Crash? {
        assert Exec(fs, op, faults(clock), unix).0.Crashed?;
      } else {
        StepEffect(fs, op, faults(clock), unix);
      }
      hide Safe, AfterCrash, Keeps, Put, OnlyTouches, Effect;
      var (status, after) := Exec(fs, op, faults(clock), unix);
      fs := after;
      clock := clock + 1;
      log := log + [op];
      return status;
    }

    /** The first half of `write_and_replace`: a complete, synced temporary file. */
    method PrepareTemporary(temporary: Name, target: Name, payload: Bytes, ghost images: iset<Option<Bytes>>, ghost sidecars: iset<Option<Bytes>>)
      returns (s: Status)
      requires temporary.Temporary? && !target.Temporary?
      requires Safe(fs, images, sidecars)
      modifies this`fs, this`clock, this`log
      ensures Safe(fs, images, sidecars)
      ensures s.Fine? ==> temporary in fs.live && fs.live[temporary].content == payload && fs.live[temporary].synced
      ensures !s.Crashed? ==> OnlyTouches(old(fs), fs, temporary, temporary)
      ensures NoFaults(faults) ==> if temporary in old(fs).live then s.Failed? && fs == old(fs) else s.Fine?
      ensures NoFaults(faults) && s.Fine? ==>
                && log == old(log) + PrepareCalls(temporary, target, payload, ModeOf(old(fs), target))
                && (target in old(fs).live ==> fs.live[temporary].mode == old(fs).live[target].mode)
    {
      hide Safe, Exec, OnlyTouches;
      ghost var start := fs;
      s := Do(CreateNew(temporary), images, sidecars);
      if !s.Fine? {
        return;
      }
      ghost var created := fs;
      s := Do(WriteAll(temporary, payload), images, sidecars);
      if !s.Crashed? {
        TouchesAgain(start, created, fs, temporary, temporary);
        Untouched(start, fs, temporary, temporary, target);
      }
      if !s.Fine? {
        return;
      }
      ghost var filled := fs;
      s := CopyPermissions(temporary, target, images, sidecars);
      if !s.Crashed? {
        TouchesAgain(start, filled, fs, temporary, temporary);
      }
      if !s.Fine? {
        return;
      }
      ghost var written := fs;
      s := Do(SyncFile(temporary), images, sidecars);
      if !s.Crashed? {
        TouchesAgain(start, written, fs, temporary, temporary);
      }
      CallsInOrder(old(log), [CreateNew(temporary), WriteAll(temporary, payload)], PermissionCalls(temporary, target, ModeOf(start, target)), [SyncFile(temporary)]);
    }

    /** A target that cannot be examined is not an error; failing to copy its permissions is. The
        permissions are copied exactly when examining the target went well. */
    method CopyPermissions(temporary: Name, target: Name, ghost images: iset<Option<Bytes>>, ghost sidecars: iset<Option<Bytes>>)
      returns (s: Status)
      requires Safe(fs, images, sidecars) && temporary in fs.live && temporary.Temporary? && !target.Temporary?
      modifies this`fs, this`clock, this`log
      ensures Safe(fs, images, sidecars)
      ensures !s.Crashed? ==> OnlyTouches(old(fs), fs, temporary, temporary)
      ensures s.Fine? ==>
                var mode := if faults(old(clock)).NoFault? && target in old(fs).live then old(fs).live[target].mode else old(fs).live[temporary].mode;
                Live(fs, temporary) == Some(old(fs).live[temporary].(mode := mode))
      ensures NoFaults(faults) ==> s.Fine? && log == old(log) + PermissionCalls(temporary, target, ModeOf(old(fs), target))
    {
      hide Safe, Exec;
      ghost var start := fs;
      s := Do(Stat(target), images, sidecars);
      if s.Fine? {
        s := Do(SetPermissions(temporary, fs.live[target].mode), images, sidecars);
      } else if s.Failed? {
        assert start.live[temporary].(mode := start.live[temporary].mode) == start.live[temporary];
        s := Fine;
      }
    }

    /** The second half: the rename that makes it visible, and the syncs after it. */
    method Install(temporary: Name, target: Name, payload: Bytes, ghost images: iset<Option<Bytes>>, ghost sidecars: iset<Option<Bytes>>)
      returns (s: Status)
      requires temporary.Temporary? && !target.Temporary?
      requires Safe(fs, images, sidecars) && Some(payload) in Allowed(target, images, sidecars)
      requires temporary in fs.live && fs.live[temporary].content == payload && fs.live[temporary].synced
      modifies this`fs, this`clock, this`log
      ensures Safe(fs, images, sidecars)
      ensures s.Fine? ==> Entry(fs, target) == Some(payload) && (unix ==> OnDisk(fs, target, Some(payload)))
      ensures !s.Crashed? ==> OnlyTouches(old(fs), fs, temporary, target)
      ensures NoFaults(faults) ==> s.Fine? && temporary !in fs.live && log == old(log) + InstallCalls(temporary, target)
      ensures s.Fine? ==> target in fs.live && fs.live[target].mode == old(fs).live[temporary].mode
    {
      hide Safe, Exec, OnlyTouches;
      ghost var start := fs;
      s := Do(Rename(temporary, target), images, sidecars);
      if !s.Fine? {
        return;
      }
      ghost var renamed := fs;
      s := Do(SyncFile(target), images, sidecars);
      if !s.Crashed? {
        Untouched(renamed, fs, target, target, temporary);
        TouchesMore(renamed, fs, target, temporary);
        TouchesAgain(start, renamed, fs, temporary, target);
      }
      if !s.Fine? {
        return;
      }
      ghost var synced := fs;
      s := Do(SyncDirectory(target), images, sidecars);
      if !s.Crashed? {
        Untouched(synced, fs, target, target, temporary);
        TouchesMore(synced, fs, target, temporary);
        TouchesAgain(start, synced, fs, temporary, target);
      }
      CallsInOrder(old(log), [Rename(temporary, target)], [SyncFile(target)], [SyncDirectory(target)]);
    }

    /** `write_and_replace` */
    method WriteAndReplace(temporary: Name, target: Name, payload: Bytes, ghost images: iset<Option<Bytes>>, ghost sidecars: iset<Option<Bytes>>)
      returns (s: Status)
      requires temporary.Temporary? && !target.Temporary?
      requires Safe(fs, images, sidecars) && Some(payload) in Allowed(target, images, sidecars)
      modifies this`fs, this`clock, this`log
      ensures Safe(fs, images, sidecars)
      ensures s.Fine? ==> Entry(fs, target) == Some(payload) && (unix ==> OnDisk(fs, target, Some(payload)))
      ensures !s.Crashed? ==> OnlyTouches(old(fs), fs, temporary, target)
      ensures NoFaults(faults) ==> if temporary in old(fs).live then s.Failed? && fs == old(fs) else s.Fine? && temporary !in fs.live
      ensures NoFaults(faults) && s.Fine? ==>
                log == old(log) + ReplaceCalls(temporary, target, payload, ModeOf(old(fs), target)) && KeepsMode(old(fs), fs, target)
    {
      hide Safe, OnlyTouches, PrepareCalls, InstallCalls;
      ghost var start := fs;
      s := PrepareTemporary(temporary, target, payload, images, sidecars);
      if !s.Crashed? {
        TouchesMore(start, fs, temporary, target);
      }
      if s.Fine? {
        ghost var prepared := fs;
        s := Install(temporary, target, payload, images, sidecars);
        if !s.Crashed? {
          TouchesAgain(start, prepared, fs, temporary, target);
        }
        ConcatAssociative(old(log), PrepareCalls(temporary, target, payload, ModeOf(start, target)), InstallCalls(temporary, target));
      }
    }

    /** `atomic_replace`: a failed replacement tries to remove its temporary file. */
    method AtomicReplace(target: Name, payload: Bytes, ghost images: iset<Option<Bytes>>, ghost sidecars: iset<Option<Bytes>>)
      returns (s: Status)
      requires !target.Temporary?
      requires Safe(fs, images, sidecars) && Some(payload) in Allowed(target, images, sidecars)
      modifies this`fs, this`clock, this`log, this`sequence
      ensures Safe(fs, images, sidecars)
      ensures s.Fine? ==> Entry(fs, target) == Some(payload) && (unix ==> OnDisk(fs, target, Some(payload)))
      ensures sequence == old(sequence) + 1
      ensures var temporary := Temporary(target == Target, pid, old(sequence));
              && (!s.Crashed? ==> OnlyTouches(old(fs), fs, temporary, target))
              && (NoFaults(faults) ==>
                  && !s.Crashed? && temporary !in fs.live && (s.Fine? <==> temporary !in old(fs).live)
                  && (s.Failed? ==> Keeps(old(fs), fs, target))
                  && (s.Fine? ==> log == old(log) + ReplaceCalls(temporary, target, payload, ModeOf(old(fs), target)) && KeepsMode(old(fs), fs, target)))
    {
      hide ReplaceCalls;
      var temporary := Temporary(target == Target, pid, sequence);
      sequence := sequence + 1;
      ghost var start := fs;
      s := WriteAndReplace(temporary, target, payload, images, sidecars);
      if s.Failed? {
        hide Safe, Exec;
        ghost var failed := fs;
        var removed := Do(RemoveFile(temporary), images, sidecars);
        if removed.Crashed? {
          s := Crashed;
        } else {
          TouchesMore(failed, fs, temporary, target);
          TouchesAgain(start, failed, fs, temporary, target);
        }
      }
    }

    method ReadNonEmpty(name: Name, ghost images: iset<Option<Bytes>>, ghost sidecars: iset<Option<Bytes>>) returns (s: Status, bytes: Bytes)
      requires Safe(fs, images, sidecars)
      modifies this`fs, this`clock, this`log
      ensures Safe(fs, images, sidecars)
      ensures !s.Crashed? ==> fs == old(fs)
      ensures s.Fine? ==> Entry(fs, name) == Some(bytes) && bytes != []
      ensures NoFaults(faults) && name in old(fs).live && old(fs).live[name].content != [] ==> s.Fine?
      ensures log == old(log) + [ReadFile(name)]
    {
      hide Safe, Exec;
      bytes := [];
      s := Do(ReadFile(name), images, sidecars);
      if s.Fine? {
        bytes := fs.live[name].content;
        if bytes == [] {
          s := Failed;
        }
      }
    }

    /** `recover_target_atomically`. An unauthorised source changes nothing. Otherwise the two files
        stay within their sets at every step; `Done` means the pair is exactly the source's, on Unix
        durably; and without faults an authorised source is always restored. */
    method RecoverTargetAtomically(H: Hash, S: Ecdsa, e: Source, ghost images: iset<Option<Bytes>>, ghost sidecars: iset<Option<Bytes>>)
      returns (o: Outcome)
      requires Safe(fs, images, sidecars) && e.Readable()
      requires Authorised(H, S, e) ==> e.image in images && e.sidecar in sidecars
      modifies this`fs, this`clock, this`log, this`sequence
      ensures Safe(fs, images, sidecars)
      ensures !Authorised(H, S, e) ==> o == NotDone && fs == old(fs)
      ensures o.Done? ==> Restored(fs, e) && (unix ==> Durable(fs, e))
      ensures o.Done? ==> Authorised(H, S, e) && o.report == ReportFor(H, S, e)
      ensures !o.Cut? || unix ==> SidecarFirst(old(fs), fs, e)
      ensures Authorised(H, S, e) && NoFaults(faults) ==> FaultFree(old(fs), fs, e, o, pid, old(sequence))
      ensures Authorised(H, S, e) && NoFaults(faults) && o.Done? ==> log == old(log) + RecoveryCalls(old(fs), e, pid, old(sequence))
    {
      hide Safe, SignedValidated, ReplaceCalls;
      if e.image.None? || e.image.value == [] || e.sidecar.None? || e.sidecar.value == [] {
        return NotDone;
      }
      var image, sidecar := e.image.value, e.sidecar.value;
      var prevalidated := ValidateSignedBootImageV2(H, S, image, sidecar, e.policy);
      if prevalidated.Err? {
        return NotDone;
      }
      ghost var before, only := OriginalImages(fs), if unix then iset{e.sidecar} else sidecars;
      NarrowImages(fs, images, sidecars);
      ghost var start := fs;
      var s := AtomicReplace(TargetSidecar, sidecar, before, sidecars);
      SafeGrows(fs, before, sidecars, images, sidecars);
      ghost var first, second := Temporary(false, pid, old(sequence)), Temporary(true, pid, old(sequence) + 1);
      hide OnlyTouches, OriginalImages;
      if !s.Crashed? {
        Untouched(start, fs, first, TargetSidecar, Target);
        Untouched(start, fs, first, TargetSidecar, second);
      }
      if !s.Fine? {
        FirstHalfOrder(start, fs, e, before, sidecars);
        return if s.Crashed? then Cut else NotDone;
      }
      NarrowSidecars(fs, images, sidecars, e, unix);
      ghost var middle := fs;
      s := AtomicReplace(Target, image, images, only);
      if !s.Crashed? {
        Untouched(middle, fs, second, Target, TargetSidecar);
        Untouched(middle, fs, second, Target, first);
      }
      if !s.Fine? {
        SecondHalfOrder(fs, images, only, e, unix);
        SafeGrows(fs, images, only, images, sidecars);
        return if s.Crashed? then Cut else NotDone;
      }
      ghost var calls := log;
      o := CheckRestored(H, S, e, prevalidated.value, images, only);
      SecondHalfOrder(fs, images, only, e, unix);
      SafeGrows(fs, images, only, images, sidecars);
      CallsInOrder(old(log), ReplaceCalls(first, TargetSidecar, sidecar, ModeOf(start, TargetSidecar)),
                   ReplaceCalls(second, Target, image, ModeOf(start, Target)), [ReadFile(Target), ReadFile(TargetSidecar)]);
    }

    /** The reads and the second validation at the end of a recovery. */
    method CheckRestored(H: Hash, S: Ecdsa, e: Source, prevalidated: ValidatedSigned, ghost images: iset<Option<Bytes>>, ghost sidecars: iset<Option<Bytes>>)
      returns (o: Outcome)
      requires Safe(fs, images, sidecars) && e.Readable()
      requires Authorised(H, S, e) && Restored(fs, e) && (unix ==> Durable(fs, e))
      requires SignedValidated(H, S, e.image.value, e.sidecar.value, e.policy) == Result.Ok(prevalidated)
      modifies this`fs, this`clock, this`log
      ensures Safe(fs, images, sidecars)
      ensures o.Done? ==> Restored(fs, e) && (unix ==> Durable(fs, e)) && o.report == ReportFor(H, S, e)
      ensures !o.Cut? ==> fs == old(fs)
      ensures NoFaults(faults) ==> o.Done? && log == old(log) + [ReadFile(Target), ReadFile(TargetSidecar)]
    {
      hide Safe, SignedValidated;
      var s, restoredImage := ReadNonEmpty(Target, images, sidecars);
      if !s.Fine? {
        return if s.Crashed? then Cut else NotDone;
      }
      var restoredSidecar;
      s, restoredSidecar := ReadNonEmpty(TargetSidecar, images, sidecars);
      if !s.Fine? {
        return if s.Crashed? then Cut else NotDone;
      }
      var postvalidated := ValidateSignedBootImageV2(H, S, restoredImage, restoredSidecar, e.policy);
      if postvalidated.Err? {
        return NotDone;
      }
      var post := postvalidated.value;
      if prevalidated.releaseCounter != post.releaseCounter || prevalidated.keyId != post.keyId
         || prevalidated.boot.merkleRoot != post.boot.merkleRoot {
        return NotDone;
      }
      return Done(RecoveryReport(post.releaseCounter, post.keyId, |restoredImage|, post.boot.merkleRoot));
    }

    /** A leftover temporary delays a recovery at most twice: of three attempts without faults by
        processes that reuse one identifier, the last succeeds. */
    method ThreeAttempts(H: Hash, S: Ecdsa, e: Source, process: nat, ghost images: iset<Option<Bytes>>, ghost sidecars: iset<Option<Bytes>>)
      returns (o: Outcome)
      requires Safe(fs, images, sidecars) && e.Readable() && NoFaults(faults)
      requires Authorised(H, S, e) && e.image in images && e.sidecar in sidecars
      modifies this`fs, this`clock, this`log, this`sequence, this`pid
      ensures Safe(fs, images, sidecars)
      ensures o.Done? && Restored(fs, e) && (unix ==> Durable(fs, e))
    {
      hide Safe, Authorised;
      pid, sequence := process, 0;
      o := RecoverTargetAtomically(H, S, e, images, sidecars);
      sequence := 0;
      o := RecoverTargetAtomically(H, S, e, images, sidecars);
      sequence := 0;
      o := RecoverTargetAtomically(H, S, e, images, sidecars);
    }

    /** Any number of attempts, each cut off or failing anywhere, with power losses in between. */
    method Run(H: Hash, S: Ecdsa, events: seq<Event>) returns (outcomes: seq<Outcome>)
      requires AtRest(fs)
      requires forall k :: 0 <= k < |events| && events[k].Attempt? ==> events[k].source.Readable()
      modifies this
      ensures Safe(fs, Images(H, S, Entry(old(fs), Target), events), Sidecars(H, S, Entry(old(fs), TargetSidecar), events))
      ensures |outcomes| == |events|
      ensures forall k :: 0 <= k < |events| && outcomes[k].Done? && Undisturbed(events, k, |events|, unix) ==> Recovered(H, S, fs, events[k], unix)
    {
      hide Authorised;
      ghost var images := Images(H, S, Entry(fs, Target), events);
      ghost var sidecars := Sidecars(H, S, Entry(fs, TargetSidecar), events);
      outcomes := [];
      for k := 0 to |events|
        invariant Safe(fs, images, sidecars)
        invariant |outcomes| == k
        invariant forall i :: 0 <= i < k && outcomes[i].Done? && Undisturbed(events, i, k, unix) ==> Recovered(H, S, fs, events[i], unix)
      {
        hide Safe, Images, Sidecars;
        match events[k] {
          case PowerLoss(c) =>
            ghost var before := fs;
            SafeAfterCrash(fs, c, images, sidecars);
            fs := AfterCrash(fs, c);
            forall i | 0 <= i < k && outcomes[i].Done? && Undisturbed(events, i, k + 1, unix)
              ensures Recovered(H, S, fs, events[i], unix)
            {
              assert events[k].PowerLoss? && Undisturbed(events, i, k, unix);
              CrashKeepsRestored(before, c, events[i].source, images, sidecars);
            }
            outcomes := outcomes + [Cut];
          case Attempt(e, process, plan) =>
            pid, faults, clock, sequence := process, plan, 0, 0;
            BroughtIsAllowed(H, S, events, k, images, sidecars, Entry(old(fs), Target), Entry(old(fs), TargetSidecar));
            var o := RecoverTargetAtomically(H, S, e, images, sidecars);
            AttemptDisturbs(events, k, unix);
            outcomes := outcomes + [o];
        }
      }
    }
  }
}
