// prepare.py prepare_security: provisioning of the runtime security files, which
// can be cut off by a crash after any write and is then simply called again.
module Prepare {
  import opened Bytes
  import opened Text
  import Keyring

  datatype Root = Root(path: string, device: nat, inode: nat)

  // A history directory: its provisioning sentinel and whether it holds anything else.
  datatype History = History(root: Root, sentinel: Option<string>, others: bool)

  // A workload directory; `clean` tells that nothing but the bootstrap's own
  // panel configuration is in it.
  datatype Workload = Workload(root: Root, clean: bool)

  // storage-roots.json
  datatype Identity = Identity(
    state: Root, data: Root, replay: Root, replaySentinel: string, anchor: Root, anchorSentinel: string)

  datatype Marker = NoMarker | Version(n: nat) | UnknownMarker

  datatype Disk = Disk(
    security: bool, policy: bool, panel: bool,
    replay: Option<History>, anchor: Option<History>,
    state: Option<Workload>, data: Option<Workload>,
    auditKey: Option<string>, keyring: Keyring.Stored, token: Option<string>, panelConfig: Option<string>,
    binding: Option<Identity>,
    marker: Marker)

  // What the operator supplies. `checks` says that every ownership, mode, link
  // and path check of the host passes.
  datatype Inputs = Inputs(
    version: nat, host: Keyring.Host, keyring: Keyring.Document, token: string, panelConfig: string, checks: bool)

  // What differs from call to call: the clock, the random draws and the identity
  // of directories that have to be created.
  datatype Draw = Draw(
    now: int, auditKey: string, replaySentinel: string, anchorSentinel: string, replay: Root, anchor: Root)

  datatype Outcome = Done | Raised | Crashed

  predicate Hex(c: char) {
    '0' <= c <= '9' || 'a' <= c <= 'f'
  }

  // secrets.token_hex(32), and what a sentinel must look like.
  predicate Hex64(s: string) {
    |s| == 64 && forall c :: c in s ==> Hex(c)
  }

  predicate ValidDraw(d: Draw) {
    Hex64(d.auditKey) && Hex64(d.replaySentinel) && Hex64(d.anchorSentinel)
  }

  predicate ValidAuditKey(s: string) {
    |Strip(s)| >= 32
  }

  predicate ValidToken(s: string) {
    |s| >= 32 && forall c :: c in s ==> 32 < c as int < 127
  }

  // _v3_storage_identity(include_history=True); None when it raises.
  function CurrentIdentity(d: Disk): Option<Identity> {
    if d.state.Some? && d.data.Some? && d.replay.Some? && d.anchor.Some?
       && d.replay.value.sentinel.Some? && d.anchor.value.sentinel.Some?
       && Hex64(d.replay.value.sentinel.value) && Hex64(d.anchor.value.sentinel.value)
    then Some(Identity(d.state.value.root, d.data.value.root,
                       d.replay.value.root, d.replay.value.sentinel.value,
                       d.anchor.value.root, d.anchor.value.sentinel.value))
    else None
  }

  // The version changes the marker check lets through.
  predicate MayProvision(marker: Marker, version: nat) {
    match marker
    case NoMarker => true
    case UnknownMarker => false
    case Version(n) => (n == 1 && version in {1, 2}) || (n == 2 && version == 2) || (n == 3 && version == 3)
  }

  predicate Empty(h: Option<History>) {
    h.Some? ==> h.value.sentinel.None? && !h.value.others
  }

  // A marker stays, or goes from nothing to a known version or from 1 to 2.
  predicate MarkerPath(m: Marker, n: Marker) {
    || n == m
    || (m == NoMarker && n in {Version(1), Version(2), Version(3)})
    || (m == Version(1) && n == Version(2))
  }

  // ---- What no call may do, whether it completes, raises or crashes ----

  ghost predicate Evolves(lib: Keyring.Library, d: Disk, e: Disk) {
    && (d.auditKey.Some? ==> e.auditKey == d.auditKey)
    && MarkerPath(d.marker, e.marker)
    && (d.marker == Version(3) ==> e.binding == d.binding && e.replay == d.replay && e.anchor == d.anchor)
    && (d.replay.Some? ==> e.replay.Some? && e.replay.value.root == d.replay.value.root)
    && (d.anchor.Some? ==> e.anchor.Some? && e.anchor.value.root == d.anchor.value.root)
    && (d.keyring.Holds? ==> e.keyring.Holds? && Keyring.Allowed(lib, d.keyring.document, e.keyring.document))
    && e.state == d.state && e.data == d.data
  }

  // An initialized version 3 host is bound to the roots and sentinels it has.
  ghost predicate Bound(d: Disk) {
    d.marker == Version(3) ==> d.binding.Some? && d.binding == CurrentIdentity(d)
  }

  // Any initialized host has an audit key.
  ghost predicate Keyed(d: Disk) {
    d.marker.Version? ==> d.auditKey.Some? && ValidAuditKey(d.auditKey.value) && d.keyring.Holds?
  }

  lemma EvolvesTransitive(lib: Keyring.Library, c: Disk, d: Disk, e: Disk)
    requires Evolves(lib, c, d) && Evolves(lib, d, e)
    ensures Evolves(lib, c, e)
  {
    if c.keyring.Holds? {
      Keyring.AllowedTransitive(lib, c.keyring.document, d.keyring.document, e.keyring.document);
    }
  }

  // ---- States an interrupted first provisioning can leave ----

  predicate ValidInputs(lib: Keyring.Library, i: Inputs, now: int) {
    && i.checks && i.version in {1, 2, 3} && ValidToken(i.token)
    && Keyring.ValidDocument(lib, i.host, i.keyring) && Keyring.HasUsableKey(i.keyring, now)
  }

  // A host on which nothing has been provisioned.
  ghost predicate FreshHost(d: Disk, version: nat) {
    && d.marker == NoMarker && d.auditKey.None? && d.keyring == Keyring.Absent
    && Empty(d.replay) && Empty(d.anchor)
    && (version == 3 ==> d.state.Some? && d.data.Some? && d.state.value.clean && d.data.value.clean)
  }

  // What any number of interrupted calls with inputs i can have left there.
  ghost predicate Partial(i: Inputs, d: Disk) {
    && d.marker in {NoMarker, Version(i.version)}
    && (d.auditKey.None? ==> FreshHost(d, i.version))
    && (d.auditKey.Some? ==> ValidAuditKey(d.auditKey.value))
    && d.keyring in {Keyring.Absent, Keyring.Holds(i.keyring)}
    && (i.version == 3 ==> d.state.Some? && d.data.Some?)
    && (d.marker == NoMarker && i.version == 3 ==> d.state.value.clean && d.data.value.clean)
    && (d.marker != NoMarker ==> d.auditKey.Some? && d.keyring == Keyring.Holds(i.keyring))
    && Bound(d)
  }

  lemma FreshIsPartial(i: Inputs, d: Disk)
    requires FreshHost(d, i.version)
    ensures Partial(i, d)
  {
  }

  lemma HexIsAuditKey(s: string)
    requires Hex64(s)
    ensures ValidAuditKey(s)
  {
    assert s[0] in s && s[63] in s;
    StrippedStays(s);
  }

  // ---- When a call completes, and what it leaves ----

  // The audit key that is there is long enough, or there is none and no sign of
  // an earlier provisioning.
  ghost predicate AuditKeyFits(d: Disk) {
    match d.auditKey
    case Some(key) => |Strip(key)| >= 32
    case None =>
      && d.marker == NoMarker
      && (d.replay.Some? ==> d.replay.value.sentinel == None && !d.replay.value.others)
      && (d.anchor.Some? ==> d.anchor.value.sentinel == None && !d.anchor.value.others)
  }

  // The supplied keyring is valid now, and follows the installed one if there is one.
  ghost predicate KeyringFits(lib: Keyring.Library, i: Inputs, d: Disk, now: int) {
    && Keyring.ValidDocument(lib, i.host, i.keyring) && Keyring.HasUsableKey(i.keyring, now)
    && match d.keyring
       case Absent => d.marker == NoMarker
       case Unreadable => false
       case Holds(previous) =>
         Keyring.ValidDocument(lib, i.host, previous) && Keyring.Allowed(lib, previous, i.keyring)
  }

  ghost predicate MarkerFits(d: Disk, version: nat) {
    || (d.marker == NoMarker && version in {1, 2, 3})
    || (d.marker == Version(1) && version in {1, 2})
    || (d.marker == Version(2) && version == 2)
    || (d.marker == Version(3) && version == 3)
  }

  // Version 3 needs its workload directories: clean ones the first time, and after
  // that the very ones, with the very history, that the host is bound to.
  ghost predicate StorageFits(d: Disk, version: nat) {
    version == 3 ==>
      && d.state.Some? && d.data.Some?
      && (d.marker == NoMarker ==> d.state.value.clean && d.data.value.clean)
      && (d.marker == Version(3) ==>
            && d.replay.Some? && d.anchor.Some?
            && match (d.binding, d.replay.value.sentinel, d.anchor.value.sentinel)
               case (Some(b), Some(replay), Some(anchor)) =>
                 && b == Identity(d.state.value.root, d.data.value.root, d.replay.value.root, replay,
                                  d.anchor.value.root, anchor)
                 && |replay| == 64 && (forall c :: c in replay ==> '0' <= c <= '9' || 'a' <= c <= 'f')
                 && |anchor| == 64 && (forall c :: c in anchor ==> '0' <= c <= '9' || 'a' <= c <= 'f')
               case _ => false)
  }

  // What is asked of the inputs and the workload directories before anything is written.
  ghost predicate InputsFit(lib: Keyring.Library, i: Inputs, d: Disk) {
    && i.checks && i.version in {1, 2, 3}
    && |i.token| >= 32 && (forall c :: c in i.token ==> 33 <= c as int <= 126)
    && Keyring.ValidKeyring(lib, i.host, i.keyring)
    && (i.version == 3 ==> d.state.Some? && d.data.Some?)
    && (i.version == 3 && d.marker == NoMarker ==> d.state.value.clean && d.data.value.clean)
  }

  // A call has gone no further than creating directories.
  ghost predicate OnlyDirectories(d: Disk, e: Disk) {
    e == d.(security := e.security, policy := e.policy, panel := e.panel, replay := e.replay, anchor := e.anchor)
  }

  // Exactly what a call that is not cut off needs to complete.
  ghost predicate Provisionable(lib: Keyring.Library, i: Inputs, d: Disk, now: int) {
    && i.checks && |i.token| >= 32 && (forall c :: c in i.token ==> 33 <= c as int <= 126)
    && MarkerFits(d, i.version) && StorageFits(d, i.version)
    && AuditKeyFits(d) && KeyringFits(lib, i, d, now)
  }

  // The host a completed call leaves. Only the first provisioning at version 3
  // writes sentinels and a binding; only a missing audit key is generated.
  ghost function Provisioned(i: Inputs, draw: Draw, d: Disk): Disk
    requires i.version == 3 ==> d.state.Some? && d.data.Some?
  {
    var replay := if d.replay.Some? then d.replay.value else History(draw.replay, None, false);
    var anchor := if d.anchor.Some? then d.anchor.value else History(draw.anchor, None, false);
    var first := i.version == 3 && d.marker == NoMarker;
    Disk(true, d.policy || i.version != 1, true,
         Some(if first then replay.(sentinel := Some(draw.replaySentinel)) else replay),
         Some(if first then anchor.(sentinel := Some(draw.anchorSentinel)) else anchor),
         d.state, d.data,
         if d.auditKey.Some? then d.auditKey else Some(draw.auditKey),
         Keyring.Holds(i.keyring), Some(i.token), Some(i.panelConfig),
         if first
         then Some(Identity(d.state.value.root, d.data.value.root, replay.root, draw.replaySentinel,
                            anchor.root, draw.anchorSentinel))
         else d.binding,
         Version(i.version))
  }

  // A version 1 host is always ready for the upgrade to version 2.
  lemma UpgradeFits(lib: Keyring.Library, i: Inputs, d: Disk, now: int)
    requires d.marker == Version(1) && i.version == 2 && Keyed(d) && ValidInputs(lib, i, now)
    requires Keyring.ValidDocument(lib, i.host, d.keyring.document)
    requires Keyring.Allowed(lib, d.keyring.document, i.keyring)
    ensures Provisionable(lib, i, d, now)
  {
  }

  // An interrupted first provisioning is always ready to be completed.
  lemma PartialFits(lib: Keyring.Library, i: Inputs, d: Disk, now: int)
    requires Partial(i, d) && ValidInputs(lib, i, now)
    ensures Provisionable(lib, i, d, now)
  {
    if d.keyring.Holds? {
      Keyring.AllowedReflexive(lib, i.keyring);
    }
  }

  // ---- prepare_security ----

  // The checks before anything is created.
  predicate Admissible(lib: Keyring.Library, i: Inputs, d: Disk) {
    && i.checks && i.version in {1, 2, 3} && ValidToken(i.token)
    && Keyring.ValidKeyring(lib, i.host, i.keyring)
    && (i.version == 3 ==> d.state.Some? && d.data.Some?)
    && (i.version == 3 && d.marker == NoMarker ==> d.state.value.clean && d.data.value.clean)
  }

  // The checks against the marker of an earlier provisioning.
  predicate MarkerOk(i: Inputs, d: Disk) {
    && MayProvision(d.marker, i.version)
    && (d.marker == Version(3) ==> d.binding.Some? && d.binding == CurrentIdentity(d))
  }

  // The call's own checks, in its own order, ask for exactly this.
  lemma FitsIff(lib: Keyring.Library, i: Inputs, d: Disk, now: int)
    ensures Provisionable(lib, i, d, now) <==>
      Admissible(lib, i, d) && MarkerOk(i, d) && AuditKeyFits(d) && KeyringFits(lib, i, d, now)
    ensures Admissible(lib, i, d) <==> InputsFit(lib, i, d)
    ensures Admissible(lib, i, d) ==> (MarkerOk(i, d) <==> MarkerFits(d, i.version) && StorageFits(d, i.version))
  {
    MarkerIff(d, i.version);
    if MarkerFits(d, i.version) {
      StorageIff(d, i.version);
    }
  }

  lemma MarkerIff(d: Disk, version: nat)
    ensures MarkerFits(d, version) <==> MayProvision(d.marker, version) && version in {1, 2, 3}
  {
    assert d.marker.Version? ==> d.marker == Version(d.marker.n);
  }

  lemma StorageIff(d: Disk, version: nat)
    requires MarkerFits(d, version)
    ensures StorageFits(d, version) <==>
      && (version == 3 ==> d.state.Some? && d.data.Some?)
      && (version == 3 && d.marker == NoMarker ==> d.state.value.clean && d.data.value.clean)
      && (d.marker == Version(3) ==> d.binding.Some? && d.binding == CurrentIdentity(d))
  {
  }

  // A step of a call: what every step keeps.
  ghost predicate Keeps(lib: Keyring.Library, i: Inputs, d: Disk, e: Disk) {
    && Evolves(lib, d, e)
    && (Bound(d) ==> Bound(e))
    && (Keyed(d) ==> Keyed(e))
    && (Partial(i, d) ==> Partial(i, e))
  }

  lemma KeepsTransitive(lib: Keyring.Library, i: Inputs, c: Disk, d: Disk, e: Disk)
    requires Keeps(lib, i, c, d) && Keeps(lib, i, d, e)
    ensures Keeps(lib, i, c, e)
  {
    EvolvesTransitive(lib, c, d, e);
  }

  // Creating missing directories.
  lemma DirectoriesKeep(lib: Keyring.Library, i: Inputs, d: Disk, e: Disk)
    requires MarkerOk(i, d)
    requires e == d.(policy := e.policy, panel := e.panel, replay := e.replay, anchor := e.anchor)
    requires if d.replay.Some? then e.replay == d.replay else Empty(e.replay)
    requires if d.anchor.Some? then e.anchor == d.anchor else Empty(e.anchor)
    ensures Keeps(lib, i, d, e)
  {
    if d.keyring.Holds? {
      Keyring.AllowedReflexive(lib, d.keyring.document);
    }
  }

  // Changing nothing that the guarantees speak of.
  lemma PanelKeeps(lib: Keyring.Library, i: Inputs, d: Disk, e: Disk)
    requires e == d.(security := e.security, token := e.token, panelConfig := e.panelConfig)
    ensures Keeps(lib, i, d, e)
  {
    if d.keyring.Holds? {
      Keyring.AllowedReflexive(lib, d.keyring.document);
    }
  }

  lemma EnterKeeps(lib: Keyring.Library, i: Inputs, draw: Draw, d: Disk)
    ensures var e := d.(security := true);
      && Keeps(lib, i, d, e)
      && (MarkerOk(i, d) <==> MarkerOk(i, e))
      && (AuditKeyFits(d) <==> AuditKeyFits(e))
      && (KeyringFits(lib, i, d, draw.now) <==> KeyringFits(lib, i, e, draw.now))
      && ((i.version == 3 ==> d.state.Some? && d.data.Some?) ==> Provisioned(i, draw, d) == Provisioned(i, draw, e))
  {
    PanelKeeps(lib, i, d, d.(security := true));
  }

  lemma AuditKeyKeeps(lib: Keyring.Library, i: Inputs, d: Disk, key: string)
    requires d.auditKey.None? && d.marker == NoMarker && ValidAuditKey(key)
    ensures Keeps(lib, i, d, d.(auditKey := Some(key)))
  {
    if d.keyring.Holds? {
      Keyring.AllowedReflexive(lib, d.keyring.document);
    }
  }

  lemma KeyringKeeps(lib: Keyring.Library, i: Inputs, d: Disk)
    requires d.keyring.Holds? ==> Keyring.Allowed(lib, d.keyring.document, i.keyring)
    requires d.auditKey.Some?
    ensures Keeps(lib, i, d, d.(keyring := Keyring.Holds(i.keyring)))
  {
  }

  lemma BindingKeeps(lib: Keyring.Library, i: Inputs, d: Disk, e: Disk)
    requires d.marker == NoMarker && d.auditKey.Some? && d.replay.Some? && d.anchor.Some?
    requires e == d.(replay := e.replay, anchor := e.anchor, binding := e.binding)
    requires e.replay.Some? && e.replay.value.root == d.replay.value.root
    requires e.anchor.Some? && e.anchor.value.root == d.anchor.value.root
    ensures Keeps(lib, i, d, e)
  {
    if d.keyring.Holds? {
      Keyring.AllowedReflexive(lib, d.keyring.document);
    }
  }

  lemma MarkerKeeps(lib: Keyring.Library, i: Inputs, d: Disk)
    requires i.version in {1, 2, 3} && MayProvision(d.marker, i.version)
    requires d.auditKey.Some? && ValidAuditKey(d.auditKey.value) && d.keyring == Keyring.Holds(i.keyring)
    requires i.version == 3 ==> d.binding.Some? && d.binding == CurrentIdentity(d)
    ensures var e := d.(marker := Version(i.version)); Keeps(lib, i, d, e) && Bound(e) && Keyed(e)
  {
    Keyring.AllowedReflexive(lib, i.keyring);
  }

  class Host {
    const lib: Keyring.Library
    var disk: Disk
    var left: nat              // effects until the host crashes

    constructor (lib: Keyring.Library, disk: Disk, left: nat)
      ensures this.lib == lib && this.disk == disk && this.left == left
    {
      this.lib, this.disk, this.left := lib, disk, left;
    }

    // One durable effect: it happens entirely, or the host has crashed before it.
    method Effect(next: Disk) returns (alive: bool)
      modifies this
      ensures alive <==> old(left) > 0
      ensures if alive then disk == next && left == old(left) - 1 else disk == old(disk) && left == 0
    {
      alive := left > 0;
      if alive {
        disk, left := next, left - 1;
      }
    }

    // _directory() on each root the version needs.
    method MakeDirectories(i: Inputs, draw: Draw) returns (alive: bool)
      modifies this
      ensures disk == old(disk).(policy := disk.policy, panel := disk.panel, replay := disk.replay,
        anchor := disk.anchor)
      ensures if old(disk).replay.Some? then disk.replay == old(disk).replay else Empty(disk.replay)
      ensures if old(disk).anchor.Some? then disk.anchor == old(disk).anchor else Empty(disk.anchor)
      ensures alive ==>
        && disk.policy == (old(disk).policy || i.version != 1) && disk.panel
        && disk.replay
           == (if old(disk).replay.Some? then old(disk).replay else Some(History(draw.replay, None, false)))
        && disk.anchor
           == (if old(disk).anchor.Some? then old(disk).anchor else Some(History(draw.anchor, None, false)))
      ensures old(left) >= 4 ==> alive && left >= old(left) - 4
    {
      if i.version != 1 && !disk.policy {
        alive := Effect(disk.(policy := true));
        if !alive { return; }
      }
      if disk.replay.None? {
        alive := Effect(disk.(replay := Some(History(draw.replay, None, false))));
        if !alive { return; }
      }
      if disk.anchor.None? {
        alive := Effect(disk.(anchor := Some(History(draw.anchor, None, false))));
        if !alive { return; }
      }
      alive := true;
      if !disk.panel {
        alive := Effect(disk.(panel := true));
      }
    }

    // The audit key is generated once; an initialized host without one is refused.
    method MakeAuditKey(ghost i: Inputs, draw: Draw) returns (r: Outcome)
      requires ValidDraw(draw)
      modifies this
      ensures Keeps(lib, i, old(disk), disk)
      ensures disk == old(disk).(auditKey := disk.auditKey)
      ensures r == Done ==> disk.auditKey.Some? && ValidAuditKey(disk.auditKey.value)
      ensures r == Done ==>
        disk.auditKey == if old(disk).auditKey.Some? then old(disk).auditKey else Some(draw.auditKey)
      ensures r == Raised <==> !AuditKeyFits(old(disk))
      ensures r != Done ==> disk == old(disk)
      ensures old(left) >= 1 ==> r != Crashed && left >= old(left) - 1
    {
      PanelKeeps(lib, i, disk, disk);
      if disk.auditKey.Some? {
        return if ValidAuditKey(disk.auditKey.value) then Done else Raised;
      }
      if disk.marker != NoMarker || !Empty(disk.replay) || !Empty(disk.anchor) {
        return Raised;
      }
      HexIsAuditKey(draw.auditKey);
      AuditKeyKeeps(lib, i, disk, draw.auditKey);
      var alive := Effect(disk.(auditKey := Some(draw.auditKey)));
      r := if alive then Done else Crashed;
    }

    method InstallKeyring(i: Inputs, now: int) returns (r: Outcome)
      requires Keyring.CollisionFree(lib)
      requires disk.auditKey.Some? && ValidAuditKey(disk.auditKey.value)
      modifies this
      ensures Keeps(lib, i, old(disk), disk)
      ensures disk == old(disk).(keyring := disk.keyring)
      ensures r == Done ==> disk.keyring == Keyring.Holds(i.keyring)
      ensures r == Raised <==> !KeyringFits(lib, i, old(disk), now)
      ensures r != Done ==> disk == old(disk)
      ensures old(left) >= 1 ==> r != Crashed && left >= old(left) - 1
    {
      PanelKeeps(lib, i, disk, disk);
      var request := Keyring.Request(i.keyring, None, disk.marker == NoMarker, true, now);
      var directory := new Keyring.Directory(lib, i.host, disk.keyring, disk.marker != NoMarker);
      var receipt := directory.Install(request);
      if receipt.Error? {
        return Raised;
      }
      if disk.keyring.Holds? {
        Keyring.AllowedReflexive(lib, i.keyring);
      }
      KeyringKeeps(lib, i, disk);
      var alive := Effect(disk.(keyring := directory.stored));
      r := if alive then Done else Crashed;
    }

    method WritePanelFiles(i: Inputs) returns (alive: bool)
      modifies this
      ensures disk == old(disk).(token := disk.token, panelConfig := disk.panelConfig)
      ensures alive ==> disk.token == Some(i.token) && disk.panelConfig == Some(i.panelConfig)
      ensures old(left) >= 2 ==> alive && left >= old(left) - 2
    {
      alive := Effect(disk.(token := Some(i.token)));
      if !alive { return; }
      alive := Effect(disk.(panelConfig := Some(i.panelConfig)));
    }

    // First version 3 provisioning: new sentinels, then the binding to them.
    method BindStorage(draw: Draw) returns (alive: bool)
      requires ValidDraw(draw)
      requires disk.state.Some? && disk.data.Some? && disk.replay.Some? && disk.anchor.Some?
      modifies this
      ensures disk == old(disk).(replay := disk.replay, anchor := disk.anchor, binding := disk.binding)
      ensures disk.replay.Some? && disk.replay.value.root == old(disk).replay.value.root
      ensures disk.anchor.Some? && disk.anchor.value.root == old(disk).anchor.value.root
      ensures alive ==> disk.binding.Some? && disk.binding == CurrentIdentity(disk)
      ensures alive ==>
        && disk.replay == Some(old(disk).replay.value.(sentinel := Some(draw.replaySentinel)))
        && disk.anchor == Some(old(disk).anchor.value.(sentinel := Some(draw.anchorSentinel)))
      ensures old(left) >= 3 ==> alive && left >= old(left) - 3
    {
      alive := Effect(disk.(replay := Some(disk.replay.value.(sentinel := Some(draw.replaySentinel)))));
      if !alive { return; }
      alive := Effect(disk.(anchor := Some(disk.anchor.value.(sentinel := Some(draw.anchorSentinel)))));
      if !alive { return; }
      alive := Effect(disk.(binding := CurrentIdentity(disk)));
    }

    // The host once directories, audit key and keyring are there.
    static ghost function Secured(i: Inputs, draw: Draw, d: Disk): Disk {
      d.(policy := d.policy || i.version != 1, panel := true,
         replay := Some(if d.replay.Some? then d.replay.value else History(draw.replay, None, false)),
         anchor := Some(if d.anchor.Some? then d.anchor.value else History(draw.anchor, None, false)),
         auditKey := if d.auditKey.Some? then d.auditKey else Some(draw.auditKey),
         keyring := Keyring.Holds(i.keyring))
    }

    // Directories, audit key and keyring.
    method InstallSecrets(i: Inputs, draw: Draw) returns (r: Outcome)
      requires ValidDraw(draw) && Keyring.CollisionFree(lib) && MarkerOk(i, disk)
      modifies this
      ensures Keeps(lib, i, old(disk), disk)
      ensures disk.marker == old(disk).marker && disk.state == old(disk).state && disk.data == old(disk).data
      ensures MarkerOk(i, disk)
      ensures r == Done ==>
        && disk.auditKey.Some? && ValidAuditKey(disk.auditKey.value) && disk.keyring == Keyring.Holds(i.keyring)
        && disk.replay.Some? && disk.anchor.Some?
      ensures r == Done ==> disk == Secured(i, draw, old(disk))
      ensures r == Done ==> AuditKeyFits(old(disk)) && KeyringFits(lib, i, old(disk), draw.now)
      ensures AuditKeyFits(old(disk)) && KeyringFits(lib, i, old(disk), draw.now) ==> r != Raised
      ensures !AuditKeyFits(old(disk)) ==> OnlyDirectories(old(disk), disk)
      ensures !KeyringFits(lib, i, old(disk), draw.now) ==>
        OnlyDirectories(old(disk).(auditKey := disk.auditKey), disk)
      ensures old(left) >= 6 ==> r != Crashed && left >= old(left) - 6
    {
      var alive := MakeDirectories(i, draw);
      ghost var made := disk;
      DirectoriesKeep(lib, i, old(disk), made);
      if !alive { return Crashed; }
      r := InstallKeys(i, draw);
      KeepsTransitive(lib, i, old(disk), made, disk);
    }

    method InstallKeys(i: Inputs, draw: Draw) returns (r: Outcome)
      requires ValidDraw(draw) && Keyring.CollisionFree(lib)
      modifies this
      ensures Keeps(lib, i, old(disk), disk)
      ensures disk == old(disk).(auditKey := disk.auditKey, keyring := disk.keyring)
      ensures r == Done ==>
        && AuditKeyFits(old(disk)) && KeyringFits(lib, i, old(disk), draw.now)
        && disk.keyring == Keyring.Holds(i.keyring)
        && disk.auditKey == (if old(disk).auditKey.Some? then old(disk).auditKey else Some(draw.auditKey))
        && ValidAuditKey(disk.auditKey.value)
      ensures AuditKeyFits(old(disk)) && KeyringFits(lib, i, old(disk), draw.now) ==> r != Raised
      ensures !AuditKeyFits(old(disk)) ==> disk == old(disk)
      ensures !KeyringFits(lib, i, old(disk), draw.now) ==> disk.keyring == old(disk).keyring
      ensures old(left) >= 2 ==> r != Crashed && left >= old(left) - 2
    {
      r := MakeAuditKey(i, draw);
      ghost var keyed := disk;
      if r != Done { return; }
      r := InstallKeyring(i, draw.now);
      KeepsTransitive(lib, i, old(disk), keyed, disk);
    }

    // The host once everything else is there too.
    static ghost function Completed(i: Inputs, draw: Draw, d: Disk): Disk
      requires d.replay.Some? && d.anchor.Some? && (i.version == 3 ==> d.state.Some? && d.data.Some?)
    {
      var e := d.(token := Some(i.token), panelConfig := Some(i.panelConfig), marker := Version(i.version));
      if i.version == 3 && d.marker == NoMarker
      then e.(replay := Some(d.replay.value.(sentinel := Some(draw.replaySentinel))),
              anchor := Some(d.anchor.value.(sentinel := Some(draw.anchorSentinel))),
              binding := Some(Identity(d.state.value.root, d.data.value.root,
                                       d.replay.value.root, draw.replaySentinel,
                                       d.anchor.value.root, draw.anchorSentinel)))
      else e
    }

    // Panel files, storage binding and, last, the marker.
    method Complete(i: Inputs, draw: Draw) returns (r: Outcome)
      requires ValidDraw(draw) && MarkerOk(i, disk) && i.version in {1, 2, 3}
      requires disk.auditKey.Some? && ValidAuditKey(disk.auditKey.value) && disk.keyring == Keyring.Holds(i.keyring)
      requires disk.replay.Some? && disk.anchor.Some?
      requires i.version == 3 ==> disk.state.Some? && disk.data.Some?
      modifies this
      ensures Keeps(lib, i, old(disk), disk)
      ensures r != Raised && (old(left) >= 6 ==> r == Done)
      ensures r == Done ==> disk == Completed(i, draw, old(disk)) && Keyed(disk) && Bound(disk)
    {
      var alive := WritePanelFiles(i);
      ghost var written := disk;
      PanelKeeps(lib, i, old(disk), written);
      if !alive { return Crashed; }
      if i.version == 3 && disk.marker == NoMarker {
        alive := BindStorage(draw);
        BindingKeeps(lib, i, written, disk);
        KeepsTransitive(lib, i, old(disk), written, disk);
        if !alive { return Crashed; }
      }
      ghost var bound := disk;
      MarkerKeeps(lib, i, bound);
      alive := Effect(disk.(marker := Version(i.version)));
      if !alive { return Crashed; }
      KeepsTransitive(lib, i, old(disk), bound, disk);
      r := Done;
    }

    // Every call, whatever the host looks like: nothing irreplaceable changes,
    // the marker only moves forward, and an interrupted first provisioning can
    // always be completed by calling again with the same inputs.
    method PrepareSecurity(i: Inputs, draw: Draw) returns (r: Outcome)
      requires ValidDraw(draw) && Keyring.CollisionFree(lib)
      modifies this
      ensures Keeps(lib, i, old(disk), disk)
      ensures r == Done ==> Provisionable(lib, i, old(disk), draw.now) && disk == Provisioned(i, draw, old(disk))
      ensures Provisionable(lib, i, old(disk), draw.now) ==> r != Raised && (old(left) >= 13 ==> r == Done)
      ensures r == Done ==> Keyed(disk) && Bound(disk)
      ensures !InputsFit(lib, i, old(disk)) ==> r == Raised && disk == old(disk)
      ensures !MarkerFits(old(disk), i.version) || !StorageFits(old(disk), i.version) ==>
        disk == old(disk).(security := disk.security)
      ensures !AuditKeyFits(old(disk)) ==> OnlyDirectories(old(disk), disk)
      ensures !KeyringFits(lib, i, old(disk), draw.now) ==>
        OnlyDirectories(old(disk).(auditKey := disk.auditKey), disk)
      ensures
        || (old(disk).marker == Version(1) && i.version == 3)
        || (old(disk).marker == Version(2) && i.version in {1, 3})
        || (old(disk).marker == Version(3) && i.version in {1, 2})
        || old(disk).marker !in {NoMarker, Version(1), Version(2), Version(3)} ==>
          r != Done && disk == old(disk).(security := disk.security)
    {
      PanelKeeps(lib, i, disk, disk);
      FitsIff(lib, i, disk, draw.now);
      if !Admissible(lib, i, disk) {
        return Raised;
      }
      EnterKeeps(lib, i, draw, disk);
      if !disk.security {
        var alive := Effect(disk.(security := true));
        if !alive { return Crashed; }
      }
      ghost var entered := disk;
      assert entered == old(disk).(security := true);
      if !MarkerOk(i, disk) {
        return Raised;
      }
      r := Provision(i, draw);
      KeepsTransitive(lib, i, old(disk), entered, disk);
    }

    // Everything after the checks of the inputs and the marker.
    method Provision(i: Inputs, draw: Draw) returns (r: Outcome)
      requires ValidDraw(draw) && Keyring.CollisionFree(lib) && MarkerOk(i, disk) && disk.security
      requires i.version in {1, 2, 3} && (i.version == 3 ==> disk.state.Some? && disk.data.Some?)
      modifies this
      ensures Keeps(lib, i, old(disk), disk)
      ensures r == Done ==>
        && AuditKeyFits(old(disk)) && KeyringFits(lib, i, old(disk), draw.now)
        && disk == Provisioned(i, draw, old(disk)) && Keyed(disk) && Bound(disk)
      ensures AuditKeyFits(old(disk)) && KeyringFits(lib, i, old(disk), draw.now) ==>
        r != Raised && (old(left) >= 12 ==> r == Done)
      ensures !AuditKeyFits(old(disk)) ==> OnlyDirectories(old(disk), disk)
      ensures !KeyringFits(lib, i, old(disk), draw.now) ==>
        OnlyDirectories(old(disk).(auditKey := disk.auditKey), disk)
    {
      r := InstallSecrets(i, draw);
      ghost var secured := disk;
      if r != Done { return; }
      r := Complete(i, draw);
      KeepsTransitive(lib, i, old(disk), secured, disk);
    }
  }

  // ---- Whole histories ----

  // The engine and the workload use their directories; sentinels stay.
  ghost predicate EngineUses(d: Disk, e: Disk) {
    && e == d.(replay := e.replay, anchor := e.anchor, state := e.state, data := e.data)
    && SameHistory(d.replay, e.replay) && SameHistory(d.anchor, e.anchor)
    && SameWorkload(d.state, e.state) && SameWorkload(d.data, e.data)
  }

  predicate SameHistory(h: Option<History>, k: Option<History>) {
    if h.Some? then k.Some? && k.value.root == h.value.root && k.value.sentinel == h.value.sentinel else k.None?
  }

  predicate SameWorkload(h: Option<Workload>, k: Option<Workload>) {
    if h.Some? then k.Some? && k.value.root == h.value.root else k.None?
  }

  // One call of prepare_security, however it ended, or a spell of normal use.
  ghost predicate Step(lib: Keyring.Library, d: Disk, e: Disk) {
    (exists i: Inputs :: Keeps(lib, i, d, e)) || EngineUses(d, e)
  }

  // Over any history of calls with any inputs, cut off anywhere, and of normal
  // use: the audit key never changes once written; the marker goes from nothing
  // to 1, 2 or 3 or from 1 to 2; a marker keeps coming with a valid audit key and
  // a keyring; and from version 3 on the storage binding, and the identity it is
  // bound to, stay the same.
  lemma {:induction false} HistoryPreserved(lib: Keyring.Library, disks: seq<Disk>, j: nat)
    requires j < |disks| && forall k :: 0 <= k < |disks| - 1 ==> Step(lib, disks[k], disks[k + 1])
    ensures disks[0].auditKey.Some? ==> disks[j].auditKey == disks[0].auditKey
    ensures match disks[0].marker
            case NoMarker => disks[j].marker in {NoMarker, Version(1), Version(2), Version(3)}
            case Version(1) => disks[j].marker in {Version(1), Version(2)}
            case _ => disks[j].marker == disks[0].marker
    ensures disks[0].marker == Version(3) ==>
      && disks[j].marker == Version(3) && disks[j].binding == disks[0].binding
      && CurrentIdentity(disks[j]) == CurrentIdentity(disks[0])
    ensures disks[0].keyring.Holds? ==>
      disks[j].keyring.Holds? && Keyring.Allowed(lib, disks[0].keyring.document, disks[j].keyring.document)
    ensures Bound(disks[0]) ==> Bound(disks[j])
    ensures Keyed(disks[0]) ==> Keyed(disks[j])
  {
    if j > 0 {
      HistoryPreserved(lib, disks, j - 1);
      assert Step(lib, disks[j - 1], disks[j - 1 + 1]);
    }
    if disks[0].keyring.Holds? {
      KeyringFollows(lib, disks, j);
    }
  }

  lemma {:induction false} KeyringFollows(lib: Keyring.Library, disks: seq<Disk>, j: nat)
    requires j < |disks| && forall k :: 0 <= k < |disks| - 1 ==> Step(lib, disks[k], disks[k + 1])
    requires disks[0].keyring.Holds?
    ensures disks[j].keyring.Holds? && Keyring.Allowed(lib, disks[0].keyring.document, disks[j].keyring.document)
  {
    if j == 0 {
      Keyring.AllowedReflexive(lib, disks[0].keyring.document);
    } else {
      KeyringFollows(lib, disks, j - 1);
      assert Step(lib, disks[j - 1], disks[j - 1 + 1]);
      if EngineUses(disks[j - 1], disks[j]) {
        Keyring.AllowedReflexive(lib, disks[j - 1].keyring.document);
      }
      Keyring.AllowedTransitive(
        lib, disks[0].keyring.document, disks[j - 1].keyring.document, disks[j].keyring.document);
    }
  }

  // Attempts on a fresh host, each cut off anywhere, followed by one that is not:
  // provisioning completes, as long as the keyring has a valid key each time.
  method RetryUntilDone(host: Host, i: Inputs, attempts: seq<Draw>, crashes: seq<nat>, last: Draw) returns (r: Outcome)
    requires |attempts| == |crashes| && Keyring.CollisionFree(host.lib)
    requires FreshHost(host.disk, i.version)
    requires forall k :: 0 <= k < |attempts| ==> ValidDraw(attempts[k]) && ValidInputs(host.lib, i, attempts[k].now)
    requires ValidDraw(last) && ValidInputs(host.lib, i, last.now)
    modifies host
    ensures r == Done && host.disk.marker == Version(i.version) && host.disk.keyring == Keyring.Holds(i.keyring)
    ensures Keyed(host.disk) && Bound(host.disk)
  {
    FreshIsPartial(i, host.disk);
    for k := 0 to |attempts|
      invariant Partial(i, host.disk)
    {
      host.left := crashes[k];
      var outcome := host.PrepareSecurity(i, attempts[k]);
    }
    host.left := 13;
    r := host.PrepareSecurity(i, last);
  }
}
