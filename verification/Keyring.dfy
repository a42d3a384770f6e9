// keyring_lifecycle.py with validate_keyring of contract.py: rotation of the
// public verifier keyring.
module Keyring {
  import opened Bytes
  import opened Text

  datatype Status = Active | Retired | Revoked

  // A validity bound of an entry: the field may be missing, null or a number.
  datatype Bound = Missing | Null | Millis(ms: int)

  // The public KMS reference: a missing field and an explicit null differ, to
  // the comparison of entries and in the digest of a document.
  datatype Reference = NoReference | NullReference | Reference(text: string)

  datatype Scope = Scope(purpose: string, deployment: string, organization: string, audiences: seq<string>,
                         prefixes: Option<seq<string>>, kmsReference: Reference)

  datatype KeyEntry = KeyEntry(publicKey: string, status: Status, notBefore: Bound, notAfter: Bound, scope: Scope)

  type Document = map<string, KeyEntry>

  // Library code: base64url decoding, the JSON size and the SHA-256 of the
  // canonical JSON of a document.
  datatype Library = Library(
    decode: string -> Option<bytes>, jsonSize: Document -> nat, fingerprint: Document -> string)

  datatype Host = Host(deployment: string, organization: string)

  const TWO64: int := 0x1_0000_0000_0000_0000

  const MAX_DOCUMENT_BYTES: nat := 256 * 1024

  function Rank(s: Status): nat {
    match s case Active => 0 case Retired => 1 case Revoked => 2
  }

  // When the key begins to be valid; missing and null mean from the start.
  function Start(e: KeyEntry): int {
    if e.notBefore.Millis? then e.notBefore.ms else 0
  }

  // When it ends; no bound counts as a time after all others.
  function End(e: KeyEntry): int {
    if e.notAfter.Millis? then e.notAfter.ms else TWO64
  }

  // ---- validate_keyring and validate_document ----

  predicate ValidScope(host: Host, s: Scope) {
    && s.purpose == "context_assertion" && s.deployment == host.deployment && s.organization == host.organization
    && s.audiences == ["tandem-runtime"]
  }

  predicate ValidBound(b: Bound) {
    b.Millis? ==> 0 <= b.ms < TWO64
  }

  // validate_keyring()
  predicate ValidKeyring(lib: Library, host: Host, d: Document) {
    && (exists kid :: kid in d && d[kid].status == Active)
    && (forall kid :: kid in d ==> kid != "" && ValidScope(host, d[kid].scope) && ValidMaterial(lib, d[kid]))
  }

  predicate ValidMaterial(lib: Library, e: KeyEntry) {
    lib.decode(e.publicKey).Some? && |lib.decode(e.publicKey).value| == 32
  }

  predicate ValidEntry(kid: string, e: KeyEntry) {
    && Stripped(kid) && |kid| <= 200 && (forall c :: c in kid ==> c as int >= 33)
    && ValidBound(e.notBefore) && ValidBound(e.notAfter)
    && (e.notBefore.Millis? && e.notAfter.Millis? ==> e.notBefore.ms < e.notAfter.ms)
  }

  predicate ValidDocument(lib: Library, host: Host, d: Document) {
    && ValidKeyring(lib, host, d)
    && lib.jsonSize(d) <= MAX_DOCUMENT_BYTES
    && (forall kid :: kid in d ==> ValidEntry(kid, d[kid]))
  }

  // What a document must be, key by key.
  lemma DocumentIs(lib: Library, host: Host, d: Document)
    ensures ValidDocument(lib, host, d) <==>
      && lib.jsonSize(d) <= 0x4_0000
      && (exists kid :: kid in d && d[kid].status == Active)
      && forall kid :: kid in d ==>
        && 1 <= |kid| <= 200 && !IsSpace(kid[0]) && !IsSpace(kid[|kid| - 1])
        && (forall c :: c in kid ==> c > ' ')
        && lib.decode(d[kid].publicKey).Some? && |lib.decode(d[kid].publicKey).value| == 32
        && d[kid].scope.purpose == "context_assertion" && d[kid].scope.audiences == ["tandem-runtime"]
        && d[kid].scope.deployment == host.deployment && d[kid].scope.organization == host.organization
        && (d[kid].notBefore.Millis? ==> 0 <= d[kid].notBefore.ms <= 0xFFFF_FFFF_FFFF_FFFF)
        && (d[kid].notAfter.Millis? ==> 0 <= d[kid].notAfter.ms <= 0xFFFF_FFFF_FFFF_FFFF)
        && (d[kid].notBefore.Millis? && d[kid].notAfter.Millis? ==> d[kid].notBefore.ms < d[kid].notAfter.ms)
  {
    forall kid, c | kid in d && c in kid
      ensures c > ' ' <==> c as int >= 33
    {
    }
    if ValidDocument(lib, host, d) {
      forall kid | kid in d
        ensures ValidEntry(kid, d[kid]) && ValidScope(host, d[kid].scope) && ValidMaterial(lib, d[kid])
      {
      }
    }
  }

  // ---- validate_transition ----

  predicate SameMaterial(lib: Library, a: KeyEntry, b: KeyEntry) {
    lib.decode(a.publicKey) == lib.decode(b.publicKey) && a.scope == b.scope
  }

  predicate EntryAllowed(lib: Library, before: KeyEntry, after: KeyEntry) {
    && Rank(before.status) <= Rank(after.status)
    && SameMaterial(lib, before, after)
    && Start(before) <= Start(after)
    && End(after) <= End(before)
  }

  predicate Allowed(lib: Library, previous: Document, proposed: Document) {
    forall kid :: kid in previous ==> kid in proposed && EntryAllowed(lib, previous[kid], proposed[kid])
  }

  method ValidateTransition(lib: Library, previous: Document, proposed: Document) returns (ok: bool)
    ensures ok <==> Allowed(lib, previous, proposed)
  {
    var kids := previous.Keys;
    while kids != {}
      invariant kids <= previous.Keys
      invariant forall kid :: kid in previous.Keys - kids ==>
        kid in proposed && EntryAllowed(lib, previous[kid], proposed[kid])
      decreases kids
    {
      var kid :| kid in kids;
      if kid !in proposed {
        return false;
      }
      var before, after := previous[kid], proposed[kid];
      if Rank(after.status) < Rank(before.status) {
        return false;
      }
      if !SameMaterial(lib, before, after) {
        return false;
      }
      if Start(after) < Start(before) || End(after) > End(before) {
        return false;
      }
      kids := kids - {kid};
    }
    ok := true;
  }

  // What a transition may do to a key: nothing can be reactivated, replaced,
  // backdated or prolonged.
  lemma AllowedIs(lib: Library, previous: Document, proposed: Document)
    ensures Allowed(lib, previous, proposed) <==>
      forall kid :: kid in previous ==>
        && kid in proposed
        && (previous[kid].status == Retired ==> proposed[kid].status in {Retired, Revoked})
        && (previous[kid].status == Revoked ==> proposed[kid].status == Revoked)
        && lib.decode(previous[kid].publicKey) == lib.decode(proposed[kid].publicKey)
        && previous[kid].scope == proposed[kid].scope
        && (if previous[kid].notBefore.Millis? then previous[kid].notBefore.ms else 0)
           <= (if proposed[kid].notBefore.Millis? then proposed[kid].notBefore.ms else 0)
        && (if proposed[kid].notAfter.Millis? then proposed[kid].notAfter.ms else 0x1_0000_0000_0000_0000)
           <= (if previous[kid].notAfter.Millis? then previous[kid].notAfter.ms else 0x1_0000_0000_0000_0000)
  {
  }

  // What the engine accepts an assertion for.
  predicate Usable(e: KeyEntry, now: int) {
    && e.status == Active && Start(e) <= now
    && (e.notAfter.Millis? ==> now < e.notAfter.ms)
  }

  predicate HasUsableKey(d: Document, now: int) {
    exists kid :: kid in d && Usable(d[kid], now)
  }

  lemma HasUsableKeyIs(d: Document, now: int)
    ensures HasUsableKey(d, now) <==>
      exists kid :: kid in d
        && d[kid].status == Active
        && (d[kid].notBefore.Millis? ==> d[kid].notBefore.ms <= now) && (d[kid].notBefore.Millis? || 0 <= now)
        && (d[kid].notAfter.Millis? ==> now < d[kid].notAfter.ms)
  {
    forall kid | kid in d
      ensures Usable(d[kid], now) <==>
        && d[kid].status == Active
        && (d[kid].notBefore.Millis? ==> d[kid].notBefore.ms <= now) && (d[kid].notBefore.Millis? || 0 <= now)
        && (d[kid].notAfter.Millis? ==> now < d[kid].notAfter.ms)
    {
    }
  }

  lemma AllowedReflexive(lib: Library, d: Document)
    ensures Allowed(lib, d, d)
  {
  }

  lemma AllowedTransitive(lib: Library, a: Document, b: Document, c: Document)
    requires Allowed(lib, a, b) && Allowed(lib, b, c)
    ensures Allowed(lib, a, c)
  {
  }

  // A rotation never makes a known key usable at a time it was not usable before.
  lemma RotationOnlyRestricts(lib: Library, host: Host, before: Document, after: Document, kid: string, now: int)
    requires ValidDocument(lib, host, before) && ValidDocument(lib, host, after) && Allowed(lib, before, after)
    requires kid in before && kid in after && Usable(after[kid], now)
    ensures Usable(before[kid], now) && SameMaterial(lib, before[kid], after[kid])
  {
    assert ValidEntry(kid, before[kid]) && ValidEntry(kid, after[kid]);
    assert EntryAllowed(lib, before[kid], after[kid]);
  }

  // ---- install_keyring ----

  datatype Stored = Absent | Unreadable | Holds(document: Document)

  datatype Request = Request(proposed: Document, expected: Option<string>, initialize: bool, apply: bool, now: int)

  datatype Receipt =
    | AlreadyStaged(after: string)
    | Staged(before: Option<string>, after: string)
    | Preview(before: Option<string>, after: string)

  function Digest(lib: Library, stored: Stored): Option<string> {
    if stored.Holds? then Some(lib.fingerprint(stored.document)) else None
  }

  // What the installer needs of the stored document before comparing digests.
  predicate Readable(lib: Library, host: Host, stored: Stored, initialized: bool, q: Request) {
    match stored
    case Absent => q.initialize && !initialized
    case Unreadable => false
    case Holds(d) => ValidDocument(lib, host, d)
  }

  // The proposed document is the stored one, or a reviewed and allowed successor.
  predicate Permitted(lib: Library, stored: Stored, q: Request) {
    || Digest(lib, stored) == Some(lib.fingerprint(q.proposed))
    || (&& (q.expected.Some? ==> q.expected == Digest(lib, stored))
        && (stored.Holds? ==> Allowed(lib, stored.document, q.proposed)))
  }

  predicate Accepted(lib: Library, host: Host, stored: Stored, initialized: bool, q: Request) {
    && ValidDocument(lib, host, q.proposed) && HasUsableKey(q.proposed, q.now)
    && Readable(lib, host, stored, initialized, q)
    && Permitted(lib, stored, q)
  }

  // The receipt of an accepted request.
  function ReceiptFor(lib: Library, stored: Stored, q: Request): Receipt {
    var before, after := Digest(lib, stored), lib.fingerprint(q.proposed);
    if before == Some(after) then AlreadyStaged(after)
    else if q.apply then Staged(before, after) else Preview(before, after)
  }

  // The stored document afterwards: an accepted apply installs the proposal.
  function StoredAfter(lib: Library, host: Host, stored: Stored, initialized: bool, q: Request): Stored {
    if Accepted(lib, host, stored, initialized, q) && q.apply then Holds(q.proposed) else stored
  }

  // The security directory, one holder of its lock at a time.
  class Directory {
    const lib: Library
    const host: Host
    var stored: Stored
    var initialized: bool

    constructor (lib: Library, host: Host, stored: Stored, initialized: bool)
      ensures this.lib == lib && this.host == host && this.stored == stored && this.initialized == initialized
    {
      this.lib, this.host, this.stored, this.initialized := lib, host, stored, initialized;
    }

    method Install(q: Request) returns (r: Result<Receipt>)
      modifies `stored
      ensures r == if Accepted(lib, host, old(stored), initialized, q) then Ok(ReceiptFor(lib, old(stored), q))
        else Error
      ensures stored == StoredAfter(lib, host, old(stored), initialized, q)
      ensures r.Ok? <==>
        && ValidDocument(lib, host, q.proposed) && HasUsableKey(q.proposed, q.now)
        && match old(stored)
           case Absent => q.initialize && !initialized && q.expected == None
           case Unreadable => false
           case Holds(d) =>
             && ValidDocument(lib, host, d)
             && (|| lib.fingerprint(d) == lib.fingerprint(q.proposed)
                 || (q.expected in {None, Some(lib.fingerprint(d))} && Allowed(lib, d, q.proposed)))
      ensures stored == if r.Ok? && q.apply then Holds(q.proposed) else old(stored)
      ensures r.Ok? ==>
        var after := lib.fingerprint(q.proposed);
        var before := if old(stored).Holds? then Some(lib.fingerprint(old(stored).document)) else None;
        if before == Some(after) then r.value == AlreadyStaged(after)
        else r.value == if q.apply then Staged(before, after) else Preview(before, after)
    {
      if !ValidDocument(lib, host, q.proposed) || !HasUsableKey(q.proposed, q.now) {
        return Error;
      }
      var before: Option<string> := None;
      match stored {
        case Holds(previous) =>
          if !ValidDocument(lib, host, previous) {
            return Error;
          }
          before := Some(lib.fingerprint(previous));
        case Unreadable =>
          return Error;
        case Absent =>
          if !q.initialize || initialized {
            return Error;
          }
      }
      var after := lib.fingerprint(q.proposed);
      if before == Some(after) {
        if q.apply {
          stored := Holds(q.proposed);
        }
        return Ok(AlreadyStaged(after));
      }
      if q.expected.Some? && q.expected != before {
        return Error;
      }
      if stored.Holds? {
        var allowed := ValidateTransition(lib, stored.document, q.proposed);
        if !allowed {
          return Error;
        }
      }
      if q.apply {
        stored := Holds(q.proposed);
        return Ok(Staged(before, after));
      }
      r := Ok(Preview(before, after));
    }
  }

  // ---- Runs of locked installs ----

  datatype Event = Event(initialized: bool, request: Request)

  // No two documents share a digest.
  ghost predicate CollisionFree(lib: Library) {
    forall a: Document, b: Document :: lib.fingerprint(a) == lib.fingerprint(b) ==> a == b
  }

  // The stored document after the first k events, from `start`.
  function After(lib: Library, host: Host, start: Stored, events: seq<Event>, k: nat): Stored
    requires k <= |events|
  {
    if k == 0 then start
    else
      var event := events[k - 1];
      StoredAfter(lib, host, After(lib, host, start, events, k - 1), event.initialized, event.request)
  }

  // Each event installs its own proposal, or leaves what the events before it left.
  lemma AfterIs(lib: Library, host: Host, start: Stored, events: seq<Event>, k: nat)
    requires k < |events|
    ensures After(lib, host, start, events, 0) == start
    ensures var stored, q := After(lib, host, start, events, k), events[k].request;
      After(lib, host, start, events, k + 1)
      == if q.apply && Accepted(lib, host, stored, events[k].initialized, q) then Holds(q.proposed) else stored
  {
  }

  // Over any run of installs, in any order and by anyone, a stored document is
  // only ever followed by allowed successors: no key disappears, changes
  // material or regains authority.
  lemma {:induction false} RunAllowed(lib: Library, host: Host, start: Stored, events: seq<Event>, i: nat, j: nat)
    requires CollisionFree(lib) && i <= j <= |events| && After(lib, host, start, events, i).Holds?
    ensures After(lib, host, start, events, j).Holds?
    ensures Allowed(lib, After(lib, host, start, events, i).document, After(lib, host, start, events, j).document)
    decreases j
  {
    if i < j {
      RunAllowed(lib, host, start, events, i, j - 1);
      var last := After(lib, host, start, events, j - 1);
      if After(lib, host, start, events, j) != last {
        assert Allowed(lib, last.document, events[j - 1].request.proposed);
        AllowedTransitive(lib, After(lib, host, start, events, i).document, last.document,
          events[j - 1].request.proposed);
      }
    }
  }

  lemma {:induction false} RunValid(lib: Library, host: Host, start: Stored, events: seq<Event>, k: nat)
    requires k <= |events| && (start.Holds? ==> ValidDocument(lib, host, start.document))
    ensures var d := After(lib, host, start, events, k); d.Holds? ==> ValidDocument(lib, host, d.document)
  {
    if k > 0 {
      RunValid(lib, host, start, events, k - 1);
    }
  }

  // A key the engine would accept late in a run was acceptable at that same time
  // under every earlier document of the run that had it.
  lemma RunOnlyRestricts(
    lib: Library, host: Host, start: Stored, events: seq<Event>, i: nat, j: nat, kid: string, now: int)
    requires CollisionFree(lib) && i <= j <= |events|
    requires start.Holds? ==> ValidDocument(lib, host, start.document)
    requires After(lib, host, start, events, i).Holds? && kid in After(lib, host, start, events, i).document
    ensures After(lib, host, start, events, j).Holds? && kid in After(lib, host, start, events, j).document
    ensures var before := After(lib, host, start, events, i).document[kid];
      var after := After(lib, host, start, events, j).document[kid];
      SameMaterial(lib, before, after) && (Usable(after, now) ==> Usable(before, now))
  {
    RunAllowed(lib, host, start, events, i, j);
    RunValid(lib, host, start, events, i);
    RunValid(lib, host, start, events, j);
    var before, after := After(lib, host, start, events, i).document, After(lib, host, start, events, j).document;
    if Usable(after[kid], now) {
      RotationOnlyRestricts(lib, host, before, after, kid, now);
    }
  }

  // The two documents have the same keys, with the same material, status and
  // effective validity window.
  ghost predicate Equivalent(lib: Library, a: Document, b: Document) {
    && a.Keys == b.Keys
    && forall kid :: kid in a ==>
         && a[kid].status == b[kid].status && SameMaterial(lib, a[kid], b[kid])
         && Start(a[kid]) == Start(b[kid]) && End(a[kid]) == End(b[kid])
  }

  lemma AllowedAntisymmetric(lib: Library, a: Document, b: Document)
    requires Allowed(lib, a, b) && Allowed(lib, b, a)
    ensures Equivalent(lib, a, b)
  {
    forall kid | kid in a
      ensures kid in b && a[kid].status == b[kid].status && SameMaterial(lib, a[kid], b[kid])
        && Start(a[kid]) == Start(b[kid]) && End(a[kid]) == End(b[kid])
    {
      assert EntryAllowed(lib, a[kid], b[kid]);
      assert EntryAllowed(lib, b[kid], a[kid]);
    }
    assert forall kid :: kid in b ==> kid in a;
  }

  // Compare-and-swap: an operator reviews the document stored after event i and
  // installs with its digest at event j. If the install replaces a document, that
  // document is the reviewed one, and whatever was stored in between was
  // equivalent to it: nobody's change is lost, not even when the reviewed
  // document had been replaced and put back.
  lemma ReviewedInstallLosesNothing(lib: Library, host: Host, start: Stored, events: seq<Event>, i: nat, j: nat, k: nat)
    requires CollisionFree(lib) && i <= k <= j < |events|
    requires After(lib, host, start, events, i).Holds?
    requires events[j].request.expected == Digest(lib, After(lib, host, start, events, i))
    requires After(lib, host, start, events, j + 1) != After(lib, host, start, events, j)
    ensures After(lib, host, start, events, j) == After(lib, host, start, events, i)
    ensures After(lib, host, start, events, k).Holds?
    ensures Equivalent(lib, After(lib, host, start, events, i).document, After(lib, host, start, events, k).document)
  {
    RunAllowed(lib, host, start, events, i, j);
    RunAllowed(lib, host, start, events, i, k);
    RunAllowed(lib, host, start, events, k, j);
    AllowedAntisymmetric(lib, After(lib, host, start, events, i).document, After(lib, host, start, events, k).document);
  }

  // Of two operators who reviewed the same document, at most one installs a
  // materially different one: the other is refused, whatever happens in between.
  lemma OneWinner(lib: Library, host: Host, start: Stored, events: seq<Event>, i: nat, j: nat, n: nat)
    requires CollisionFree(lib) && i <= j < n < |events|
    requires After(lib, host, start, events, i).Holds?
    requires events[j].request.expected == events[n].request.expected == Digest(lib, After(lib, host, start, events, i))
    requires After(lib, host, start, events, j + 1) != After(lib, host, start, events, j)
    requires !Equivalent(lib, After(lib, host, start, events, j).document, After(lib, host, start, events,
      j + 1).document)
    ensures After(lib, host, start, events, n + 1) == After(lib, host, start, events, n)
  {
    if After(lib, host, start, events, n + 1) != After(lib, host, start, events, n) {
      ReviewedInstallLosesNothing(lib, host, start, events, i, j, j);
      ReviewedInstallLosesNothing(lib, host, start, events, i, n, j + 1);
      assert false;
    }
  }

  // Applying what was previewed: with the previewed digest, an unchanged document
  // and a key that is valid then, the apply succeeds with the preview's digests,
  // and repeating it reports that the document is already staged.
  lemma PreviewThenApply(lib: Library, host: Host, stored: Stored, initialized: bool, q: Request, now: int, later: int)
    requires !q.apply && Accepted(lib, host, stored, initialized, q) && ReceiptFor(lib, stored, q).Preview?
    requires HasUsableKey(q.proposed, now) && HasUsableKey(q.proposed, later)
    ensures var p := ReceiptFor(lib, stored, q);
      var again := q.(apply := true, expected := p.before, now := now);
      && Accepted(lib, host, stored, initialized, again)
      && ReceiptFor(lib, stored, again) == Staged(p.before, p.after)
      && var installed := StoredAfter(lib, host, stored, initialized, again);
      && installed == Holds(q.proposed)
      && Accepted(lib, host, installed, initialized, again.(now := later))
      && ReceiptFor(lib, installed, again) == AlreadyStaged(p.after)
  {
  }
}
