// backup_export.py with the uploader protocol of backup_commands.py (client) and
// backup_google_storage.py (server): any number of export attempts against one
// immutable store, as a state machine. An attempt can die after any step, a
// request whose caller gave up can still land later, and an acknowledgement can
// be lost.
module BackupExport {
  import opened Bytes
  import opened BackupArchive
  import opened BackupStream

  // The three objects in the order export_backup() publishes them.
  datatype Name = Archive | Anchors | Manifest

  // v3/<organization>/<deployment>/<backup>/<name>
  datatype Key = Key(scope: string, name: Name)

  datatype Ref = Ref(sha256: bytes, size: nat)

  // What the outer manifest says about the two encrypted objects.
  datatype Commit = Commit(archive: Ref, anchors: Ref)

  datatype Stored = Stored(content: bytes, generation: nat)

  // The local files of one attempt.
  datatype Files = Files(scope: string, archive: bytes, anchors: bytes, manifest: bytes)
  {
    function Content(name: Name): bytes {
      match name case Archive => archive case Anchors => anchors case Manifest => manifest
    }
  }

  datatype Phase =
    | Ready(name: Name)                     // about to put this object
    | Putting(name: Name)                   // put_if_absent sent, no answer yet
    | Verifying(name: Name, generation: nat) // created; read-back outstanding
    | Done
    | Failed

  datatype Attempt = Attempt(files: Files, phase: Phase)

  // A put_if_absent on its way to the store.
  datatype Request = Request(id: nat, key: Key, content: bytes)

  datatype World = World(
    bucket: map<Key, Stored>,
    generations: nat,                       // every generation so far is smaller
    inFlight: set<Request>,
    created: map<(nat, Name), nat>,         // answers "created, generation g" not yet lost
    attempts: map<nat, Attempt>,
    author: map<Key, nat>)                  // history: whose request created each object

  // SHA-256, and how a manifest's bytes are read back.
  datatype Env = Env(sha256: bytes -> bytes, decode: bytes -> Option<Commit>)
  {
    function RefOf(content: bytes): Ref { Ref(sha256(content), |content|) }
  }

  function After(name: Name): Phase {
    match name case Archive => Ready(Anchors) case Anchors => Ready(Manifest) case Manifest => Done
  }

  // ---- Steps ----

  // A new attempt has written its three files: the manifest seals the digest
  // and size of the two encrypted objects. Any scope may be used again.
  ghost predicate Begin(env: Env, w: World, w': World, id: nat, files: Files) {
    && id !in w.attempts
    && env.decode(files.manifest) == Some(Commit(env.RefOf(files.archive), env.RefOf(files.anchors)))
    && w' == w.(attempts := w.attempts[id := Attempt(files, Ready(Archive))])
  }

  // The transport hashes the file, rewinds it and streams it, so the streamed
  // bytes are not known to be the hashed ones.
  ghost predicate SendPut(w: World, w': World, id: nat, content: bytes) {
    && id in w.attempts && w.attempts[id].phase.Ready?
    && var a := w.attempts[id]; var name := a.phase.name;
    && a.files.Content(name) != []          // put_verified_receipt refuses size <= 0
    && w' == w.(inFlight := w.inFlight + {Request(id, Key(a.files.scope, name), content)},
                attempts := w.attempts[id := a.(phase := Putting(name))])
  }

  // The store applies if_generation_match=0; the answer carries the generation.
  ghost predicate Apply(w: World, w': World, q: Request) {
    && q in w.inFlight
    && q.key !in w.bucket
    && w' == w.(bucket := w.bucket[q.key := Stored(q.content, w.generations)],
                generations := w.generations + 1,
                inFlight := w.inFlight - {q},
                author := w.author[q.key := q.id],
                created := w.created[(q.id, q.key.name) := w.generations])
  }

  // The object exists already, or the request or its answer is lost for good.
  ghost predicate Drop(w: World, w': World, q: Request) {
    q in w.inFlight && w' == w.(inFlight := w.inFlight - {q})
  }

  ghost predicate LoseAnswer(w: World, w': World, id: nat, name: Name) {
    w' == w.(created := w.created - {(id, name)})
  }

  // The client accepts the receipt: created is true and a generation came back.
  ghost predicate Receipt(w: World, w': World, id: nat) {
    && id in w.attempts && w.attempts[id].phase.Putting?
    && var a := w.attempts[id]; var name := a.phase.name;
    && (id, name) in w.created
    && w' == w.(attempts := w.attempts[id := a.(phase := Verifying(name, w.created[(id, name)]))])
  }

  // verify: the live object has the expected generation, size and digest.
  ghost predicate ReadBack(env: Env, w: World, w': World, id: nat) {
    && id in w.attempts && w.attempts[id].phase.Verifying?
    && var a := w.attempts[id]; var name := a.phase.name; var key := Key(a.files.scope, name);
    && key in w.bucket
    && w.bucket[key].generation == a.phase.generation
    && env.RefOf(w.bucket[key].content) == env.RefOf(a.files.Content(name))
    && w' == w.(attempts := w.attempts[id := a.(phase := After(name))])
  }

  // A crash, a timeout, a refused receipt, a failed guard: the attempt is over.
  ghost predicate Fail(w: World, w': World, id: nat) {
    && id in w.attempts && w.attempts[id].phase != Done
    && w' == w.(attempts := w.attempts[id := w.attempts[id].(phase := Failed)])
  }

  datatype Step =
    | BeginStep(id: nat, files: Files)
    | SendStep(id: nat, content: bytes)
    | ApplyStep(request: Request)
    | DropStep(request: Request)
    | LoseStep(id: nat, name: Name)
    | ReceiptStep(id: nat)
    | ReadBackStep(id: nat)
    | FailStep(id: nat)

  ghost predicate Takes(env: Env, w: World, w': World, step: Step) {
    match step
    case BeginStep(id, files) => Begin(env, w, w', id, files)
    case SendStep(id, content) => SendPut(w, w', id, content)
    case ApplyStep(q) => Apply(w, w', q)
    case DropStep(q) => Drop(w, w', q)
    case LoseStep(id, name) => LoseAnswer(w, w', id, name)
    case ReceiptStep(id) => Receipt(w, w', id)
    case ReadBackStep(id) => ReadBack(env, w, w', id)
    case FailStep(id) => Fail(w, w', id)
  }

  ghost predicate Next(env: Env, w: World, w': World) {
    exists step :: Takes(env, w, w', step)
  }

  ghost predicate Init(w: World) {
    w.bucket == map[] && w.inFlight == {} && w.created == map[] && w.attempts == map[] && w.author == map[]
  }

  // A run of the system: consecutive worlds are steps.
  ghost predicate Run(env: Env, run: seq<World>) {
    && |run| > 0 && Init(run[0])
    && forall i :: 0 <= i < |run| - 1 ==> Next(env, run[i], run[i + 1])
  }

  // ---- What holds in every reachable world ----

  // Attempt id itself created this object of its scope, and what is stored has
  // the digest and size of the attempt's own file.
  ghost predicate Holds(env: Env, w: World, id: nat, name: Name)
    requires id in w.attempts
  {
    var files := w.attempts[id].files; var key := Key(files.scope, name);
    && key in w.bucket && key in w.author && w.author[key] == id
    && env.RefOf(w.bucket[key].content) == env.RefOf(files.Content(name))
  }

  // What attempt id has verified before it puts `name`.
  ghost predicate Behind(env: Env, w: World, id: nat, name: Name)
    requires id in w.attempts
  {
    && (name != Archive ==> Holds(env, w, id, Archive))
    && (name == Manifest ==> Holds(env, w, id, Anchors))
  }

  ghost predicate Progress(env: Env, w: World, id: nat)
    requires id in w.attempts
  {
    match w.attempts[id].phase
    case Ready(name) => Behind(env, w, id, name)
    case Putting(name) => Behind(env, w, id, name)
    case Verifying(name, generation) => Behind(env, w, id, name) && Created(w, id, name, generation)
    case Done => Behind(env, w, id, Manifest) && Holds(env, w, id, Manifest)
    case Failed => true
  }

  ghost predicate Created(w: World, id: nat, name: Name, generation: nat)
    requires id in w.attempts
  {
    var key := Key(w.attempts[id].files.scope, name);
    key in w.bucket && key in w.author && w.author[key] == id && w.bucket[key].generation == generation
  }

  ghost predicate Seals(env: Env, files: Files) {
    env.decode(files.manifest) == Some(Commit(env.RefOf(files.archive), env.RefOf(files.anchors)))
  }

  // A request under way is one of its attempt's own; for a manifest, everything
  // the attempt's manifest seals is already stored.
  ghost predicate Entitled(env: Env, w: World, id: nat, key: Key) {
    && id in w.attempts
    && key.scope == w.attempts[id].files.scope
    && (key.name == Manifest ==> Behind(env, w, id, Manifest))
  }

  ghost predicate Inv(env: Env, w: World) {
    && w.author.Keys == w.bucket.Keys
    && (forall id: nat :: id in w.attempts ==> Seals(env, w.attempts[id].files) && Progress(env, w, id))
    && (forall q :: q in w.inFlight ==> Entitled(env, w, q.id, q.key))
    && (forall key :: key in w.bucket ==> Entitled(env, w, w.author[key], key))
    && (forall id: nat, name: Name :: (id, name) in w.created ==>
      id in w.attempts && Created(w, id, name, w.created[(id, name)]))
  }

  // The promise of the export: a manifest in the store means that the archive and
  // anchors objects are there too, with the digest and size that the manifest of
  // the attempt that put it seals.
  ghost predicate CommitLast(env: Env, w: World) {
    forall scope: string :: Key(scope, Manifest) in w.bucket ==>
      OwnManifest(w, scope).Some? && Backed(env, w, scope, env.decode(OwnManifest(w, scope).value))
  }

  // In full: the manifest commits to the digest and the length of what is there.
  lemma BackedIs(env: Env, w: World, scope: string, commit: Option<Commit>)
    ensures Backed(env, w, scope, commit) <==>
      && Key(scope, Archive) in w.bucket && Key(scope, Anchors) in w.bucket
      && var archive, anchors := w.bucket[Key(scope, Archive)].content, w.bucket[Key(scope, Anchors)].content;
      commit == Some(Commit(Ref(env.sha256(archive), |archive|), Ref(env.sha256(anchors), |anchors|)))
  {
  }

  // The manifest file of the attempt that put this scope's manifest object.
  ghost function OwnManifest(w: World, scope: string): Option<bytes> {
    var key := Key(scope, Manifest);
    if key in w.author && w.author[key] in w.attempts then Some(w.attempts[w.author[key]].files.manifest) else None
  }

  ghost predicate Backed(env: Env, w: World, scope: string, commit: Option<Commit>) {
    && commit.Some?
    && Key(scope, Archive) in w.bucket && env.RefOf(w.bucket[Key(scope, Archive)].content) == commit.value.archive
    && Key(scope, Anchors) in w.bucket && env.RefOf(w.bucket[Key(scope, Anchors)].content) == commit.value.anchors
  }

  // What the stored manifest itself says is in the store.
  ghost predicate BackedCommit(env: Env, w: World, scope: string)
    requires Key(scope, Manifest) in w.bucket
  {
    Backed(env, w, scope, env.decode(w.bucket[Key(scope, Manifest)].content))
  }

  // The stored manifest has the digest and size of its attempt's own, which are
  // what the export reports and what a recovery compares it with.
  ghost predicate Delivered(env: Env, w: World, scope: string)
    requires Key(scope, Manifest) in w.bucket
  {
    && OwnManifest(w, scope).Some?
    && env.RefOf(w.bucket[Key(scope, Manifest)].content) == env.RefOf(OwnManifest(w, scope).value)
  }

  ghost predicate HashCollision(env: Env, a: bytes, b: bytes) {
    a != b && env.RefOf(a) == env.RefOf(b)
  }

  // Nothing that has been stored is ever replaced or removed.
  ghost predicate Grows(w: World, w': World) {
    && (forall key :: key in w.bucket ==> key in w'.bucket && w'.bucket[key] == w.bucket[key])
    && (forall key :: key in w.author ==> key in w'.author && (key in w.bucket ==> w'.author[key] == w.author[key]))
    && (forall id: nat :: id in w.attempts ==> id in w'.attempts && w'.attempts[id].files == w.attempts[id].files)
  }

  lemma StepGrows(env: Env, w: World, w': World, step: Step)
    requires Takes(env, w, w', step)
    ensures Grows(w, w')
  {
  }

  lemma BehindGrows(env: Env, w: World, w': World, id: nat, name: Name)
    requires Grows(w, w') && id in w.attempts && Behind(env, w, id, name)
    ensures id in w'.attempts && Behind(env, w', id, name)
  {
    HoldsGrows(env, w, w', id, Archive);
    HoldsGrows(env, w, w', id, Anchors);
  }

  lemma HoldsGrows(env: Env, w: World, w': World, id: nat, name: Name)
    requires Grows(w, w') && id in w.attempts
    ensures id in w'.attempts && (Holds(env, w, id, name) ==> Holds(env, w', id, name))
  {
    var key := Key(w.attempts[id].files.scope, name);
    assert key in w.bucket ==> key in w'.bucket;
  }

  lemma EntitledGrows(env: Env, w: World, w': World, id: nat, key: Key)
    requires Grows(w, w') && Entitled(env, w, id, key)
    ensures Entitled(env, w', id, key)
  {
    if key.name == Manifest {
      BehindGrows(env, w, w', id, Manifest);
    }
  }

  lemma ProgressGrows(env: Env, w: World, w': World, id: nat)
    requires Grows(w, w') && id in w.attempts && Progress(env, w, id)
    requires w.author.Keys == w.bucket.Keys
    requires id in w'.attempts && w'.attempts[id] == w.attempts[id]
    ensures Progress(env, w', id)
  {
    forall name | Behind(env, w, id, name)
      ensures Behind(env, w', id, name)
    {
      BehindGrows(env, w, w', id, name);
    }
    HoldsGrows(env, w, w', id, Manifest);
  }

  lemma AttemptsKept(env: Env, w: World, w': World, step: Step, id: nat)
    requires Inv(env, w) && Takes(env, w, w', step) && id in w'.attempts
    ensures Seals(env, w'.attempts[id].files) && Progress(env, w', id)
  {
    StepGrows(env, w, w', step);
    if id in w.attempts && w'.attempts[id] == w.attempts[id] {
      ProgressGrows(env, w, w', id);
    } else if id in w.attempts {
      AdvanceKept(env, w, w', step, id);
    }
  }

  // The attempt that takes the step.
  lemma AdvanceKept(env: Env, w: World, w': World, step: Step, id: nat)
    requires Inv(env, w) && Takes(env, w, w', step) && Grows(w, w')
    requires id in w.attempts && id in w'.attempts && w'.attempts[id] != w.attempts[id]
    ensures Seals(env, w'.attempts[id].files) && Progress(env, w', id)
  {
    assert Seals(env, w.attempts[id].files) && Progress(env, w, id);
    forall name | Behind(env, w, id, name)
      ensures Behind(env, w', id, name)
    {
      BehindGrows(env, w, w', id, name);
    }
    HoldsGrows(env, w, w', id, Manifest);
  }

  lemma InFlightKept(env: Env, w: World, w': World, step: Step, q: Request)
    requires Inv(env, w) && Takes(env, w, w', step) && q in w'.inFlight
    ensures Entitled(env, w', q.id, q.key)
  {
    StepGrows(env, w, w', step);
    assert q !in w.inFlight ==> Progress(env, w, step.id);
    EntitledGrows(env, w, w', q.id, q.key);
  }

  lemma BucketKept(env: Env, w: World, w': World, step: Step, key: Key)
    requires Inv(env, w) && Takes(env, w, w', step) && key in w'.bucket
    ensures key in w'.author && Entitled(env, w', w'.author[key], key)
  {
    StepGrows(env, w, w', step);
    assert key !in w.bucket ==> step.request in w.inFlight;
    EntitledGrows(env, w, w', w'.author[key], key);
  }

  lemma CreatedKept(env: Env, w: World, w': World, step: Step, id: nat, name: Name)
    requires Inv(env, w) && Takes(env, w, w', step) && (id, name) in w'.created
    ensures id in w'.attempts && Created(w', id, name, w'.created[(id, name)])
  {
    StepGrows(env, w, w', step);
    if step.ApplyStep? && (step.request.id, step.request.key.name) == (id, name) {
      assert Entitled(env, w, id, step.request.key);
    } else {
      assert (id, name) in w.created && w'.created[(id, name)] == w.created[(id, name)];
    }
  }

  lemma StepKeepsInv(env: Env, w: World, w': World, step: Step)
    requires Inv(env, w) && Takes(env, w, w', step)
    ensures Inv(env, w')
  {
    forall id: nat | id in w'.attempts
      ensures Seals(env, w'.attempts[id].files) && Progress(env, w', id)
    {
      AttemptsKept(env, w, w', step, id);
    }
    forall q | q in w'.inFlight
      ensures Entitled(env, w', q.id, q.key)
    {
      InFlightKept(env, w, w', step, q);
    }
    forall key | key in w'.bucket
      ensures key in w'.author && Entitled(env, w', w'.author[key], key)
    {
      BucketKept(env, w, w', step, key);
    }
    forall id: nat, name: Name | (id, name) in w'.created
      ensures id in w'.attempts && Created(w', id, name, w'.created[(id, name)])
    {
      CreatedKept(env, w, w', step, id, name);
    }
  }

  lemma {:induction false} RunKeepsInv(env: Env, run: seq<World>, i: nat)
    requires Run(env, run) && i < |run|
    ensures Inv(env, run[i])
  {
    if i > 0 {
      RunKeepsInv(env, run, i - 1);
      assert Next(env, run[i - 1], run[i - 1 + 1]);
      var step :| Takes(env, run[i - 1], run[i], step);
      StepKeepsInv(env, run[i - 1], run[i], step);
    }
  }

  // ---- Sizes and generations ----

  // What an attempt has put, or is putting, is not empty.
  predicate NoneEmpty(a: Attempt) {
    match a.phase
    case Ready(name) => NoneEmptyBefore(a.files, name)
    case Putting(name) => NoneEmptyBefore(a.files, name) && a.files.Content(name) != []
    case Verifying(name, _) => NoneEmptyBefore(a.files, name) && a.files.Content(name) != []
    case Done => a.files.archive != [] && a.files.anchors != [] && a.files.manifest != []
    case Failed => true
  }

  predicate NoneEmptyBefore(files: Files, name: Name) {
    (name != Archive ==> files.archive != []) && (name == Manifest ==> files.anchors != [])
  }

  // No two objects ever get the same generation.
  ghost predicate Numbered(w: World) {
    && (forall key :: key in w.bucket ==> w.bucket[key].generation < w.generations)
    && (forall key, other :: key in w.bucket && other in w.bucket && key != other ==>
          w.bucket[key].generation != w.bucket[other].generation)
  }

  lemma {:induction false} RunNumbered(env: Env, run: seq<World>, i: nat)
    requires Run(env, run) && i < |run|
    ensures Numbered(run[i]) && forall id :: id in run[i].attempts ==> NoneEmpty(run[i].attempts[id])
  {
    if i > 0 {
      RunNumbered(env, run, i - 1);
      LastStep(env, run, i);
      var step :| Takes(env, run[i - 1], run[i], step);
      StepNumbered(env, run[i - 1], run[i], step);
    }
  }

  lemma StepNumbered(env: Env, w: World, w': World, step: Step)
    requires Takes(env, w, w', step)
    requires Numbered(w) && forall id :: id in w.attempts ==> NoneEmpty(w.attempts[id])
    ensures Numbered(w') && forall id :: id in w'.attempts ==> NoneEmpty(w'.attempts[id])
  {
    forall id | id in w'.attempts
      ensures NoneEmpty(w'.attempts[id])
    {
      assert id in w.attempts ==> NoneEmpty(w.attempts[id]);
    }
  }

  // A reported success is final.
  lemma DoneStays(env: Env, w: World, w': World, step: Step, id: nat)
    requires Takes(env, w, w', step) && id in w.attempts && w.attempts[id].phase == Done
    ensures id in w'.attempts && w'.attempts[id] == w.attempts[id]
  {
  }

  // An attempt only gets past an object when the live object is the one that its
  // own receipt numbered and has its file's digest and length.
  lemma AdvanceMeansVerified(env: Env, w: World, w': World, step: Step, id: nat)
    requires Takes(env, w, w', step) && id in w.attempts && id in w'.attempts
    requires w.attempts[id].phase.Verifying?
    requires w'.attempts[id].phase !in {w.attempts[id].phase, Failed}
    ensures var a := w.attempts[id]; var key, file := Key(a.files.scope, a.phase.name), a.files.Content(a.phase.name);
      && key in w.bucket && w.bucket[key].generation == a.phase.generation
      && |w.bucket[key].content| == |file| && env.sha256(w.bucket[key].content) == env.sha256(file)
    ensures w'.attempts[id].phase == match w.attempts[id].phase.name
                                     case Archive => Ready(Anchors)
                                     case Anchors => Ready(Manifest)
                                     case Manifest => Done
  {
  }

  // ---- Main results ----

  // Commit-last safety, for every run, whatever the transport makes of the files.
  lemma ManifestImpliesObjects(env: Env, run: seq<World>, i: nat)
    requires Run(env, run) && i < |run|
    ensures CommitLast(env, run[i])
  {
    RunKeepsInv(env, run, i);
    var w := run[i];
    forall scope: string | Key(scope, Manifest) in w.bucket
      ensures OwnManifest(w, scope).Some? && Backed(env, w, scope, env.decode(OwnManifest(w, scope).value))
    {
      var id := w.author[Key(scope, Manifest)];
      assert Entitled(env, w, id, Key(scope, Manifest));
    }
  }

  // The stored manifest itself is backed exactly when it reads like the one its
  // attempt wrote; and so it does when it was delivered, up to a collision.
  lemma BackedIff(env: Env, run: seq<World>, i: nat, scope: string)
    requires Run(env, run) && i < |run| && Key(scope, Manifest) in run[i].bucket
    ensures var w := run[i]; var content := w.bucket[Key(scope, Manifest)].content;
      && OwnManifest(w, scope).Some?
      && (BackedCommit(env, w, scope) <==> env.decode(content) == env.decode(OwnManifest(w, scope).value))
      && (Delivered(env, w, scope) ==>
            BackedCommit(env, w, scope) || HashCollision(env, content, OwnManifest(w, scope).value))
  {
    ManifestImpliesObjects(env, run, i);
    assert Backed(env, run[i], scope, env.decode(OwnManifest(run[i], scope).value));
  }

  // A transport that damages the manifest can leave anything in its place, which
  // the read-back then refuses; so the stored manifest need not be backed.
  lemma ManifestCanBeDamaged(env: Env, w: World, id: nat, content: bytes) returns (damaged: World)
    requires id in w.attempts && w.attempts[id].phase == Ready(Manifest) && w.attempts[id].files.manifest != []
    requires var key := Key(w.attempts[id].files.scope, Manifest); key !in w.bucket
    ensures var key := Key(w.attempts[id].files.scope, Manifest);
      key in damaged.bucket && damaged.bucket[key].content == content
    ensures exists sent :: Next(env, w, sent) && Next(env, sent, damaged)
  {
    var a := w.attempts[id];
    var q := Request(id, Key(a.files.scope, Manifest), content);
    var sent := w.(inFlight := w.inFlight + {q}, attempts := w.attempts[id := a.(phase := Putting(Manifest))]);
    damaged := sent.(
      bucket := w.bucket[q.key := Stored(content, w.generations)], generations := w.generations + 1,
      inFlight := sent.inFlight - {q}, author := w.author[q.key := id],
      created := w.created[(id, Manifest) := w.generations]);
    assert Takes(env, w, sent, SendStep(id, content));
    assert Takes(env, sent, damaged, ApplyStep(q));
    assert Next(env, w, sent) && Next(env, sent, damaged);
  }

  // The manifest of an export that reports success has been delivered.
  lemma DoneIsDelivered(env: Env, run: seq<World>, i: nat, id: nat)
    requires Run(env, run) && i < |run| && id in run[i].attempts && run[i].attempts[id].phase == Done
    ensures var w := run[i]; var scope := w.attempts[id].files.scope;
      && Key(scope, Manifest) in w.bucket && Delivered(env, w, scope)
      && OwnManifest(w, scope) == Some(w.attempts[id].files.manifest)
  {
    DoneIsStored(env, run, i, id);
  }

  // A reused backup id never mixes attempts: the three objects of a committed
  // backup were all created by one attempt, from that attempt's files.
  lemma OneAttemptPerCommit(env: Env, run: seq<World>, i: nat, scope: string)
    requires Run(env, run) && i < |run| && Key(scope, Manifest) in run[i].bucket
    ensures var w := run[i];
      exists id: nat :: id in w.attempts && w.attempts[id].files.scope == scope
        && Key(scope, Manifest) in w.author && w.author[Key(scope, Manifest)] == id
        && Holds(env, w, id, Archive) && Holds(env, w, id, Anchors)
        && (Holds(env, w, id, Manifest) <==> Delivered(env, w, scope))
  {
    RunKeepsInv(env, run, i);
    var w := run[i];
    var id := w.author[Key(scope, Manifest)];
    assert Entitled(env, w, id, Key(scope, Manifest));
    assert Holds(env, w, id, Archive);
  }

  ghost predicate PastArchive(phase: Phase) {
    phase == Done || ((phase.Ready? || phase.Putting? || phase.Verifying?) && phase.name != Archive)
  }

  // Two attempts on one backup id: at most one gets past the archive object.
  lemma AttemptsExclude(env: Env, run: seq<World>, i: nat, id: nat, other: nat)
    requires Run(env, run) && i < |run|
    requires id in run[i].attempts && other in run[i].attempts
    requires run[i].attempts[id].files.scope == run[i].attempts[other].files.scope
    requires PastArchive(run[i].attempts[id].phase) && PastArchive(run[i].attempts[other].phase)
    ensures id == other
  {
    RunKeepsInv(env, run, i);
    assert Progress(env, run[i], id) && Progress(env, run[i], other);
    assert Holds(env, run[i], id, Archive) && Holds(env, run[i], other, Archive);
  }

  // The store has an object of this file's digest and length, and it is not empty.
  ghost predicate Arrived(env: Env, w: World, key: Key, file: bytes) {
    && key in w.bucket && |w.bucket[key].content| == |file| > 0
    && env.sha256(w.bucket[key].content) == env.sha256(file)
  }

  // An export that reports success has its own three objects in the store.
  lemma DoneIsStored(env: Env, run: seq<World>, i: nat, id: nat)
    requires Run(env, run) && i < |run| && id in run[i].attempts && run[i].attempts[id].phase == Done
    ensures Holds(env, run[i], id, Archive) && Holds(env, run[i], id, Anchors) && Holds(env, run[i], id, Manifest)
    ensures var w, files := run[i], run[i].attempts[id].files;
      && Arrived(env, w, Key(files.scope, Archive), files.archive)
      && Arrived(env, w, Key(files.scope, Anchors), files.anchors)
      && Arrived(env, w, Key(files.scope, Manifest), files.manifest)
  {
    RunKeepsInv(env, run, i);
    RunNumbered(env, run, i);
    assert Progress(env, run[i], id) && NoneEmpty(run[i].attempts[id]);
  }

  // An object, once stored, is the same in every later world of the run.
  lemma StoredForever(env: Env, run: seq<World>, i: nat, j: nat, key: Key)
    requires Run(env, run) && i <= j < |run| && key in run[i].bucket
    ensures key in run[j].bucket && run[j].bucket[key] == run[i].bucket[key]
  {
    forall k: nat | 0 < k < |run|
      ensures GrowsAt(run, k)
    {
      LastStep(env, run, k);
      var step :| Takes(env, run[k - 1], run[k], step);
      StepGrows(env, run[k - 1], run[k], step);
    }
    StaysStored(run, i, j, key);
  }

  ghost predicate GrowsAt(run: seq<World>, k: nat) {
    0 < k < |run| && Grows(run[k - 1], run[k])
  }

  lemma {:induction false} StaysStored(run: seq<World>, i: nat, j: nat, key: Key)
    requires forall k: nat :: 0 < k < |run| ==> GrowsAt(run, k)
    requires i <= j < |run| && key in run[i].bucket
    ensures key in run[j].bucket && run[j].bucket[key] == run[i].bucket[key]
    decreases j
  {
    if i < j {
      StaysStored(run, i, j - 1, key);
      assert GrowsAt(run, j);
    }
  }

  lemma LastStep(env: Env, run: seq<World>, j: nat)
    requires Run(env, run) && 0 < j < |run|
    ensures Next(env, run[j - 1], run[j])
  {
    assert Next(env, run[j - 1], run[j - 1 + 1]);
  }

  function RefIn(metadata: Metadata): Ref {
    Ref(metadata.sha256, metadata.size)
  }

  // What a delivered manifest commits to can be restored: when it seals the
  // metadata of an export, the stored archive and anchors are that export's
  // sealed objects, unless the store holds a SHA-256 collision.
  lemma CommittedIsRestorable(env: Env, run: seq<World>, i: nat, scope: string, x: Export)
    requires Run(env, run) && i < |run| && Key(scope, Manifest) in run[i].bucket && Delivered(env, run[i], scope)
    requires x.Valid() && env.sha256 == x.suite.sha256
    requires env.decode(run[i].bucket[Key(scope, Manifest)].content) ==
             Some(Commit(RefIn(SealedMetadata(x.Object(0), x.archive)), RefIn(SealedMetadata(x.Object(1), x.anchors))))
    ensures Key(scope, Archive) in run[i].bucket && Key(scope, Anchors) in run[i].bucket
    ensures OwnManifest(run[i], scope).Some?
    ensures
      || HashCollision(env, run[i].bucket[Key(scope, Manifest)].content, OwnManifest(run[i], scope).value)
      || (&& Restores(x, 0, run[i].bucket[Key(scope, Archive)].content)
          && Restores(x, 1, run[i].bucket[Key(scope, Anchors)].content))
  {
    ManifestImpliesObjects(env, run, i);
    BackedIff(env, run, i, scope);
    assert Backed(env, run[i], scope, env.decode(OwnManifest(run[i], scope).value));
  }

  // The stored bytes are the export's sealed object, or collide with it.
  ghost predicate Restores(x: Export, kind: byte, stored: bytes)
    requires x.Valid()
  {
    var sealed := Sealed(x.Object(kind), x.Plaintext(kind));
    stored == sealed || Collision(x.suite, stored, sealed)
  }

  // ---- The export can complete ----

  // Publishing one object undisturbed: send, apply, receipt, read-back.
  lemma PublishOne(env: Env, w: World, id: nat) returns (run: seq<World>)
    requires id in w.attempts && w.attempts[id].phase.Ready?
    requires w.attempts[id].files.Content(w.attempts[id].phase.name) != []
    requires Key(w.attempts[id].files.scope, w.attempts[id].phase.name) !in w.bucket
    ensures |run| == 5 && run[0] == w
    ensures forall i :: 0 <= i < 4 ==> Next(env, run[i], run[i + 1])
    ensures var a, last := w.attempts[id], run[4];
      && last.attempts == w.attempts[id := a.(phase := After(a.phase.name))]
      && last.bucket.Keys == w.bucket.Keys + {Key(a.files.scope, a.phase.name)}
  {
    var a := w.attempts[id];
    var key, content := Key(a.files.scope, a.phase.name), a.files.Content(a.phase.name);
    var q := Request(id, key, content);
    var w1 := w.(inFlight := w.inFlight + {q}, attempts := w.attempts[id := a.(phase := Putting(key.name))]);
    var w2 := w1.(bucket := w.bucket[key := Stored(content, w.generations)], generations := w.generations + 1,
                  inFlight := w1.inFlight - {q}, author := w.author[key := id],
                  created := w.created[(id, key.name) := w.generations]);
    var w3 := w2.(attempts := w1.attempts[id := a.(phase := Verifying(key.name, w.generations))]);
    var w4 := w3.(attempts := w3.attempts[id := a.(phase := After(key.name))]);
    assert Takes(env, w, w1, SendStep(id, content));
    assert Takes(env, w1, w2, ApplyStep(q));
    assert Takes(env, w2, w3, ReceiptStep(id));
    assert Takes(env, w3, w4, ReadBackStep(id));
    run := [w, w1, w2, w3, w4];
  }

  // From any world, an attempt on a scope with nothing stored can finish in
  // twelve steps, whatever else is under way.
  lemma UndisturbedExportCompletes(env: Env, w: World, id: nat) returns (run: seq<World>)
    requires id in w.attempts && w.attempts[id].phase == Ready(Archive)
    requires forall name: Name :: w.attempts[id].files.Content(name) != []
    requires forall name: Name :: Key(w.attempts[id].files.scope, name) !in w.bucket
    ensures |run| == 13 && run[0] == w && forall i :: 0 <= i < 12 ==> Next(env, run[i], run[i + 1])
    ensures id in run[12].attempts && run[12].attempts[id].phase == Done
    ensures run[12].attempts[id].files == w.attempts[id].files
  {
    var r := PublishOne(env, w, id);
    var s := PublishOne(env, r[4], id);
    var t := PublishOne(env, s[4], id);
    run := r + s[1..] + t[1..];
    forall i | 0 <= i < 12
      ensures Next(env, run[i], run[i + 1])
    {
      if i < 4 {
        assert Next(env, r[i], r[i + 1]);
      } else if i < 8 {
        assert Next(env, s[i - 4], s[i - 4 + 1]);
      } else {
        assert Next(env, t[i - 8], t[i - 8 + 1]);
      }
    }
  }
}
