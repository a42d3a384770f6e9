// The independence of mount roots: what contract.py and policy_contract.py
// check when a bundle is built, prepare.py before it writes anything, and
// backup_source.py before it exports.
module MountRoots {
  import opened Bytes

  // The root and the components of a normalised absolute path. pathlib keeps a
  // second leading slash: "//srv" has the root "//" and is another path than
  // "/srv", although it leads to the same directory.
  type Path = seq<string>

  // path.resolve() == path
  predicate Canonical(path: Path) {
    path != [] && path[0] == "/"
  }

  predicate AllCanonical(paths: seq<Path>) {
    forall i | 0 <= i < |paths| :: Canonical(paths[i])
  }

  // a == b, or one is among the other's parents.
  predicate Overlap(a: Path, b: Path) {
    a <= b || b <= a
  }

  predicate LiesUnder(file: Path, root: Path) {
    root <= file
  }

  lemma OverlapIsSharing(a: Path, b: Path)
    ensures Overlap(a, b) <==> exists file :: LiesUnder(file, a) && LiesUnder(file, b)
  {
    if a <= b {
      assert LiesUnder(b, a) && LiesUnder(b, b);
    } else if b <= a {
      assert LiesUnder(a, a) && LiesUnder(a, b);
    }
  }

  // No overlap between a path of one list and a path of the other.
  predicate Apart(roots: seq<Path>, others: seq<Path>) {
    forall i, j | 0 <= i < |roots| && 0 <= j < |others| :: !Overlap(roots[i], others[j])
  }

  predicate PairwiseApart(roots: seq<Path>) {
    forall i, j | 0 <= i < j < |roots| :: !Overlap(roots[i], roots[j])
  }

  lemma ApartIs(roots: seq<Path>, others: seq<Path>)
    ensures Apart(roots, others) <==> forall a, b :: a in roots && b in others ==> !(a <= b) && !(b <= a)
  {
    if Apart(roots, others) {
      forall a, b | a in roots && b in others
        ensures !(a <= b) && !(b <= a)
      {
        var i :| 0 <= i < |roots| && roots[i] == a;
        var j :| 0 <= j < |others| && others[j] == b;
        assert !Overlap(roots[i], others[j]);
      }
    }
    if forall a, b :: a in roots && b in others ==> !(a <= b) && !(b <= a) {
      forall i, j | 0 <= i < |roots| && 0 <= j < |others|
        ensures !Overlap(roots[i], others[j])
      {
        assert roots[i] in roots && others[j] in others;
      }
    }
  }

  lemma OneApartIs(root: Path, others: seq<Path>)
    ensures Apart([root], others) <==> forall b :: b in others ==> !(root <= b) && !(b <= root)
  {
    ApartIs([root], others);
    assert root in [root];
  }

  lemma PairwiseApartIs(roots: seq<Path>)
    ensures PairwiseApart(roots) <==>
      forall i, j :: 0 <= i < j < |roots| ==> !(roots[i] <= roots[j]) && !(roots[j] <= roots[i])
  {
    if forall i, j :: 0 <= i < j < |roots| ==> !(roots[i] <= roots[j]) && !(roots[j] <= roots[i]) {
      forall i, j | 0 <= i < j < |roots|
        ensures !Overlap(roots[i], roots[j])
      {
      }
    }
  }

  lemma AllCanonicalIs(paths: seq<Path>)
    ensures AllCanonical(paths) <==> forall a :: a in paths ==> a != [] && a[0] == "/"
  {
    forall i | 0 <= i < |paths|
      ensures paths[i] in paths && (Canonical(paths[i]) <==> paths[i] != [] && paths[i][0] == "/")
    {
    }
    if AllCanonical(paths) {
      forall a | a in paths
        ensures a != [] && a[0] == "/"
      {
        var i :| 0 <= i < |paths| && paths[i] == a;
        assert Canonical(paths[i]);
      }
    }
  }

  // The nested loops over two lists.
  method CheckApart(roots: seq<Path>, others: seq<Path>) returns (ok: bool)
    ensures ok <==> Apart(roots, others)
  {
    var i := 0;
    while i < |roots|
      invariant 0 <= i <= |roots|
      invariant Apart(roots[..i], others)
    {
      var j := 0;
      while j < |others|
        invariant 0 <= j <= |others|
        invariant forall k | 0 <= k < j :: !Overlap(roots[i], others[k])
      {
        if Overlap(roots[i], others[j]) {
          return false;
        }
        j := j + 1;
      }
      i := i + 1;
    }
    return true;
  }

  // The nested loops over one list and its own rest.
  method CheckPairwise(roots: seq<Path>) returns (ok: bool)
    ensures ok <==> PairwiseApart(roots)
  {
    var i := 0;
    while i < |roots|
      invariant 0 <= i <= |roots|
      invariant forall a, b | 0 <= a < i && a < b < |roots| :: !Overlap(roots[a], roots[b])
    {
      var j := i + 1;
      while j < |roots|
        invariant i < j <= |roots|
        invariant forall b | i < b < j :: !Overlap(roots[i], roots[b])
      {
        if Overlap(roots[i], roots[j]) {
          return false;
        }
        j := j + 1;
      }
      i := i + 1;
    }
    return true;
  }

  // host_paths as build_security_bundle() lists them.
  datatype HostRoots = HostRoots(state: Path, security: Path, replay: Path, anchor: Path, panelAuth: Path)
  {
    function All(): seq<Path> {
      [state, security, replay, anchor, panelAuth]
    }
  }

  // The roots against the workload mounts and each other, the anchor also
  // against the installation tree.
  predicate BuildAccepts(roots: HostRoots, ordinary: seq<Path>, install: Path) {
    Apart(roots.All(), ordinary) && PairwiseApart(roots.All()) && !Overlap(roots.anchor, install)
  }

  // build_security_bundle()
  method BuildBundle(roots: HostRoots, ordinary: seq<Path>, install: Path) returns (ok: bool)
    ensures ok <==> BuildAccepts(roots, ordinary, install)
    ensures ok <==>
      var mounts := [roots.state, roots.security, roots.replay, roots.anchor, roots.panelAuth];
      && (forall a, b :: a in mounts && b in ordinary ==> !(a <= b) && !(b <= a))
      && (forall i, j :: 0 <= i < j < 5 ==> !(mounts[i] <= mounts[j]) && !(mounts[j] <= mounts[i]))
      && !(roots.anchor <= install) && !(install <= roots.anchor)
  {
    ApartIs(roots.All(), ordinary);
    PairwiseApartIs(roots.All());
    var workloads := CheckApart(roots.All(), ordinary);
    var each := CheckPairwise(roots.All());
    ok := workloads && each && !Overlap(roots.anchor, install);
  }

  // The roots a profile adds: none in version 1, the policy root in version 2,
  // in version 3 the KMS command root after it.
  datatype Profile = V1 | V2(policy: Path) | V3(policy: Path, commands: Path)

  predicate PolicyAccepts(hosts: seq<Path>, ordinary: seq<Path>, profile: Profile) {
    match profile
    case V1 => true
    case V2(policy) => Apart([policy], hosts + ordinary)
    case V3(policy, commands) => Apart([policy], hosts + ordinary) && Apart([commands], hosts + [policy] + ordinary)
  }

  function Extended(hosts: seq<Path>, profile: Profile): seq<Path> {
    match profile
    case V1 => hosts
    case V2(policy) => hosts + [policy]
    case V3(policy, commands) => hosts + [policy] + [commands]
  }

  // apply_policy_profile(): each new root against every mount collected so far.
  // None: refused.
  method ApplyPolicy(hosts: seq<Path>, ordinary: seq<Path>, profile: Profile) returns (r: Option<seq<Path>>)
    ensures r == if PolicyAccepts(hosts, ordinary, profile) then Some(Extended(hosts, profile)) else None
    ensures match profile
            case V1 => r == Some(hosts)
            case V2(policy) =>
              && (r.Some? <==> forall b :: b in hosts + ordinary ==> !(policy <= b) && !(b <= policy))
              && (r.Some? ==> r.value == hosts + [policy])
            case V3(policy, commands) =>
              && (r.Some? <==>
                    && (forall b :: b in hosts + ordinary ==> !(policy <= b) && !(b <= policy))
                    && (forall b :: b in hosts + [policy] + ordinary ==> !(commands <= b) && !(b <= commands)))
              && (r.Some? ==> r.value == hosts + [policy, commands])
  {
    if !profile.V1? {
      OneApartIs(profile.policy, hosts + ordinary);
    }
    if profile.V3? {
      OneApartIs(profile.commands, hosts + [profile.policy] + ordinary);
    }
    if profile.V1? {
      return Some(hosts);
    }
    var apart := CheckApart([profile.policy], hosts + ordinary);
    if !apart {
      return None;
    }
    var all := hosts + [profile.policy];
    if profile.V3? {
      apart := CheckApart([profile.commands], all + ordinary);
      if !apart {
        return None;
      }
      all := all + [profile.commands];
    }
    return Some(all);
  }

  // prepare_security()'s own checks: _plain_path() on every root, and overlaps.
  predicate PrepareAccepts(hosts: seq<Path>, ordinary: seq<Path>) {
    AllCanonical(hosts) && AllCanonical(ordinary) && Apart(hosts, ordinary) && PairwiseApart(hosts)
  }

  method PrepareChecks(hosts: seq<Path>, ordinary: seq<Path>) returns (ok: bool)
    ensures ok <==> PrepareAccepts(hosts, ordinary)
    ensures ok <==>
      && (forall a :: a in hosts + ordinary ==> a != [] && a[0] == "/")
      && (forall a, b :: a in hosts && b in ordinary ==> !(a <= b) && !(b <= a))
      && (forall i, j :: 0 <= i < j < |hosts| ==> !(hosts[i] <= hosts[j]) && !(hosts[j] <= hosts[i]))
  {
    ApartIs(hosts, ordinary);
    PairwiseApartIs(hosts);
    CanonicalConcat(hosts, ordinary);
    AllCanonicalIs(hosts + ordinary);
    var plain := CheckCanonical(hosts);
    var plainOrdinary := CheckCanonical(ordinary);
    var workloads := CheckApart(hosts, ordinary);
    var each := CheckPairwise(hosts);
    ok := plain && plainOrdinary && workloads && each;
  }

  method CheckCanonical(paths: seq<Path>) returns (ok: bool)
    ensures ok <==> AllCanonical(paths)
  {
    var i := 0;
    while i < |paths|
      invariant 0 <= i <= |paths|
      invariant AllCanonical(paths[..i])
    {
      if !Canonical(paths[i]) {
        return false;
      }
      i := i + 1;
    }
    return true;
  }

  // _check_source(): every mount against every other, and the anchor against
  // the tree that is exported.
  predicate SourceAccepts(hosts: seq<Path>, ordinary: seq<Path>, anchor: Path, install: Path) {
    && AllCanonical(hosts + ordinary) && Canonical(install)
    && PairwiseApart(hosts + ordinary) && !Overlap(anchor, install)
  }

  method CheckSource(hosts: seq<Path>, ordinary: seq<Path>, anchor: Path, install: Path) returns (ok: bool)
    ensures ok <==> SourceAccepts(hosts, ordinary, anchor, install)
    ensures ok <==>
      var mounts := hosts + ordinary;
      && (forall a :: a in mounts ==> a != [] && a[0] == "/") && install != [] && install[0] == "/"
      && (forall i, j :: 0 <= i < j < |mounts| ==> !(mounts[i] <= mounts[j]) && !(mounts[j] <= mounts[i]))
      && !(anchor <= install) && !(install <= anchor)
  {
    PairwiseApartIs(hosts + ordinary);
    AllCanonicalIs(hosts + ordinary);
    var plain := CheckCanonical(hosts + ordinary);
    ok := CheckPairwise(hosts + ordinary);
    ok := plain && Canonical(install) && ok && !Overlap(anchor, install);
  }

  // The file lies under at most one security root, and then under no workload root.
  predicate Separated(file: Path, hosts: seq<Path>, ordinary: seq<Path>) {
    && (forall i, j | 0 <= i < j < |hosts| :: !(LiesUnder(file, hosts[i]) && LiesUnder(file, hosts[j])))
    && (forall i, j | 0 <= i < |hosts| && 0 <= j < |ordinary| ::
          !(LiesUnder(file, hosts[i]) && LiesUnder(file, ordinary[j])))
  }

  // What the checks are for, in both directions.
  lemma AcceptedMeansSeparated(hosts: seq<Path>, ordinary: seq<Path>)
    ensures PrepareAccepts(hosts, ordinary)
      <==> AllCanonical(hosts) && AllCanonical(ordinary) && forall file :: Separated(file, hosts, ordinary)
  {
    forall a: Path, b: Path
      ensures Overlap(a, b) <==> exists file :: LiesUnder(file, a) && LiesUnder(file, b)
    {
      OverlapIsSharing(a, b);
    }
    if forall file :: Separated(file, hosts, ordinary) {
      forall i, j | 0 <= i < j < |hosts|
        ensures !Overlap(hosts[i], hosts[j])
      {
        assert Separated(hosts[i], hosts, ordinary) && Separated(hosts[j], hosts, ordinary);
      }
      forall i, j | 0 <= i < |hosts| && 0 <= j < |ordinary|
        ensures !Overlap(hosts[i], ordinary[j])
      {
        assert Separated(hosts[i], hosts, ordinary) && Separated(ordinary[j], hosts, ordinary);
      }
    }
  }

  lemma PairwiseConcat(a: seq<Path>, b: seq<Path>)
    ensures PairwiseApart(a + b) <==> PairwiseApart(a) && PairwiseApart(b) && Apart(a, b)
  {
    var all := a + b;
    if PairwiseApart(all) {
      forall i, j | 0 <= i < j < |b|
        ensures !Overlap(b[i], b[j])
      {
        assert all[|a| + i] == b[i] && all[|a| + j] == b[j];
      }
      forall i, j | 0 <= i < |a| && 0 <= j < |b|
        ensures !Overlap(a[i], b[j])
      {
        assert all[i] == a[i] && all[|a| + j] == b[j];
      }
      forall i, j | 0 <= i < j < |a|
        ensures !Overlap(a[i], a[j])
      {
        assert all[i] == a[i] && all[j] == a[j];
      }
    }
  }

  // What prepare_security() accepts, with an anchor outside the installation
  // tree, is what the two bundle builders accept when every root has a single
  // leading slash.
  lemma BuiltIsPrepared(roots: HostRoots, ordinary: seq<Path>, install: Path, profile: Profile)
    ensures
      && BuildAccepts(roots, ordinary, install) && PolicyAccepts(roots.All(), ordinary, profile)
      && AllCanonical(Extended(roots.All(), profile)) && AllCanonical(ordinary)
      <==> PrepareAccepts(Extended(roots.All(), profile), ordinary) && !Overlap(roots.anchor, install)
  {
    match profile
    case V1 =>
    case V2(policy) =>
      AddRoot(roots.All(), ordinary, policy);
    case V3(policy, commands) =>
      AddRoot(roots.All(), ordinary, policy);
      AddRoot(roots.All() + [policy], ordinary, commands);
  }

  // So the only roots of a built bundle that prepare_security() refuses are
  // those with two leading slashes.
  lemma BuiltRefusedOnlyForSlashes(roots: HostRoots, ordinary: seq<Path>, install: Path, profile: Profile)
    requires BuildAccepts(roots, ordinary, install) && PolicyAccepts(roots.All(), ordinary, profile)
    ensures PrepareAccepts(Extended(roots.All(), profile), ordinary)
      <==> AllCanonical(Extended(roots.All(), profile)) && AllCanonical(ordinary)
  {
    BuiltIsPrepared(roots, ordinary, install, profile);
  }

  predicate NoOverlap(hosts: seq<Path>, ordinary: seq<Path>) {
    Apart(hosts, ordinary) && PairwiseApart(hosts)
  }

  lemma AddRoot(roots: seq<Path>, ordinary: seq<Path>, root: Path)
    ensures NoOverlap(roots + [root], ordinary)
      <==> NoOverlap(roots, ordinary) && Apart([root], roots + ordinary)
  {
    PairwiseConcat(roots, [root]);
    ApartConcat([root], roots, ordinary);
    ApartFlip(roots, [root]);
    ApartFlip(roots + [root], ordinary);
    ApartFlip(roots, ordinary);
    ApartFlip([root], ordinary);
    ApartConcat(ordinary, roots, [root]);
  }

  lemma ApartFlip(a: seq<Path>, b: seq<Path>)
    ensures Apart(a, b) <==> Apart(b, a)
  {
  }

  lemma ApartConcat(a: seq<Path>, b: seq<Path>, c: seq<Path>)
    ensures Apart(a, b + c) <==> Apart(a, b) && Apart(a, c)
  {
    if Apart(a, b + c) {
      forall i, j | 0 <= i < |a| && 0 <= j < |b|
        ensures !Overlap(a[i], b[j])
      {
        assert (b + c)[j] == b[j];
      }
      forall i, j | 0 <= i < |a| && 0 <= j < |c|
        ensures !Overlap(a[i], c[j])
      {
        assert (b + c)[|b| + j] == c[j];
      }
    }
  }

  // A prepared host can be backed up exactly when its workload mounts are
  // independent of each other too and the anchor is outside the exported tree.
  // No earlier step asks for the first; only the builder asks for the second.
  lemma BackupNeedsWorkloadsApart(hosts: seq<Path>, ordinary: seq<Path>, anchor: Path, install: Path)
    requires PrepareAccepts(hosts, ordinary)
    ensures SourceAccepts(hosts, ordinary, anchor, install)
      <==> PairwiseApart(ordinary) && Canonical(install) && !Overlap(anchor, install)
  {
    PairwiseConcat(hosts, ordinary);
    CanonicalConcat(hosts, ordinary);
  }

  // A bundle that was built, exported from its own installation tree.
  lemma BuiltBackupNeedsWorkloadsApart(roots: HostRoots, ordinary: seq<Path>, install: Path, profile: Profile)
    requires BuildAccepts(roots, ordinary, install) && PolicyAccepts(roots.All(), ordinary, profile)
    ensures SourceAccepts(Extended(roots.All(), profile), ordinary, roots.anchor, install)
      <==> AllCanonical(Extended(roots.All(), profile) + ordinary) && Canonical(install) && PairwiseApart(ordinary)
  {
    var hosts := Extended(roots.All(), profile);
    BuiltRefusedOnlyForSlashes(roots, ordinary, install, profile);
    CanonicalConcat(hosts, ordinary);
    if AllCanonical(hosts + ordinary) {
      BackupNeedsWorkloadsApart(hosts, ordinary, roots.anchor, install);
    }
  }

  lemma CanonicalConcat(a: seq<Path>, b: seq<Path>)
    ensures AllCanonical(a + b) <==> AllCanonical(a) && AllCanonical(b)
  {
    if AllCanonical(a + b) {
      assert forall i | 0 <= i < |a| :: (a + b)[i] == a[i];
      assert forall i | 0 <= i < |b| :: (a + b)[|a| + i] == b[i];
    }
  }

  // ---- Three complete version 3 hosts ----

  // Directories of their own: /srv/m, /srv/mm, and so on.
  function Mount(i: nat): Path {
    ["/", "srv", seq(i + 1, k => 'm')]
  }

  lemma MountsApart(i: nat, j: nat)
    ensures Overlap(Mount(i), Mount(j)) <==> i == j
  {
    var a, b := Mount(i), Mount(j);
    assert a[2] == b[2] ==> i == j by {
      assert |a[2]| == i + 1 && |b[2]| == j + 1;
    }
  }

  const ROOTS: HostRoots := HostRoots(Mount(0), Mount(1), Mount(2), Mount(3), Mount(4))

  const PROFILE: Profile := V3(Mount(5), Mount(6))

  // Nine workload mounts, the second in a directory of the first.
  function Workloads(nested: bool): seq<Path> {
    seq(9, i requires 0 <= i < 9 => if i == 1 && nested then Mount(7) + ["repos"] else Mount(7 + i))
  }

  lemma HostIsPrepared(nested: bool)
    ensures PrepareAccepts(Extended(ROOTS.All(), PROFILE), Workloads(nested))
    ensures PairwiseApart(Workloads(nested)) <==> !nested
  {
    var hosts, ordinary := Extended(ROOTS.All(), PROFILE), Workloads(nested);
    HostsAre();
    forall i, j | 0 <= i < j < |hosts|
      ensures !Overlap(hosts[i], hosts[j])
    {
      MountsApart(i, j);
    }
    forall i, j | 0 <= i < |hosts| && 0 <= j < |ordinary|
      ensures !Overlap(hosts[i], ordinary[j])
    {
      HostAndWorkload(nested, i, j);
    }
    WorkloadsApart(nested);
  }

  lemma HostsAre()
    ensures var hosts := Extended(ROOTS.All(), PROFILE);
      |hosts| == 7 && forall i | 0 <= i < 7 :: hosts[i] == Mount(i)
  {
  }

  lemma HostAndWorkload(nested: bool, i: nat, j: nat)
    requires i < 7 && j < 9
    ensures !Overlap(Mount(i), Workloads(nested)[j])
  {
    MountsApart(i, 7 + j);
    MountsApart(i, 7);
    var workload := Workloads(nested)[j];
    assert workload[..3] == Mount(7 + j) || workload[..3] == Mount(7);
  }

  lemma WorkloadsApart(nested: bool)
    ensures PairwiseApart(Workloads(nested)) <==> !nested
  {
    var ordinary := Workloads(nested);
    if nested {
      assert Overlap(ordinary[0], ordinary[1]);
    } else {
      forall i, j | 0 <= i < j < |ordinary|
        ensures !Overlap(ordinary[i], ordinary[j])
      {
        MountsApart(7 + i, 7 + j);
      }
    }
  }

  // A built and prepared host with a workload mount inside another cannot be
  // exported; nor can a prepared host whose anchor is inside the exported tree.
  lemma PreparedButNotExportable()
    ensures var hosts, nested, apart := Extended(ROOTS.All(), PROFILE), Workloads(true), Workloads(false);
      var elsewhere, around := ["/", "opt", "tandem"], ["/", "srv"];
      && BuildAccepts(ROOTS, nested, elsewhere) && PolicyAccepts(ROOTS.All(), nested, PROFILE)
      && PrepareAccepts(hosts, nested) && !SourceAccepts(hosts, nested, ROOTS.anchor, elsewhere)
      && PrepareAccepts(hosts, apart) && SourceAccepts(hosts, apart, ROOTS.anchor, elsewhere)
      && !SourceAccepts(hosts, apart, ROOTS.anchor, around)
  {
    var hosts, nested, apart := Extended(ROOTS.All(), PROFILE), Workloads(true), Workloads(false);
    var elsewhere: Path, around: Path := ["/", "opt", "tandem"], ["/", "srv"];
    HostIsPrepared(true);
    HostIsPrepared(false);
    assert ROOTS.anchor == Mount(3);
    assert !Overlap(Mount(3), elsewhere) by {
      assert Mount(3)[1] != elsewhere[1];
    }
    assert Overlap(Mount(3), around) by {
      assert Mount(3)[..2] == around;
    }
    BuiltIsPrepared(ROOTS, nested, elsewhere, PROFILE);
    BackupNeedsWorkloadsApart(hosts, nested, ROOTS.anchor, elsewhere);
    BackupNeedsWorkloadsApart(hosts, apart, ROOTS.anchor, elsewhere);
  }

  // With two leading slashes the builders take one directory for two: the state
  // root is the first workload mount. Provisioning refuses such a bundle.
  lemma DoubleSlashBuilt()
    ensures var shared := ["//"] + Mount(7)[1..];
      var roots := ROOTS.(state := shared);
      var elsewhere := ["/", "opt", "tandem"];
      && BuildAccepts(roots, Workloads(false), elsewhere) && PolicyAccepts(roots.All(), Workloads(false), PROFILE)
      && !PrepareAccepts(Extended(roots.All(), PROFILE), Workloads(false))
  {
    var shared, elsewhere: Path := ["//"] + Mount(7)[1..], ["/", "opt", "tandem"];
    var roots, ordinary := ROOTS.(state := shared), Workloads(false);
    var hosts, before := Extended(roots.All(), PROFILE), Extended(ROOTS.All(), PROFILE);
    HostIsPrepared(false);
    assert forall i | 1 <= i < |hosts| :: hosts[i] == before[i];
    assert hosts[0] == shared && !Canonical(hosts[0]);
    assert forall path: Path | Canonical(path) :: !Overlap(shared, path) by {
      forall path: Path | Canonical(path)
        ensures !Overlap(shared, path)
      {
        assert shared[0] != path[0];
      }
    }
    assert NoOverlap(hosts, ordinary);
    AddRoot(roots.All(), ordinary, PROFILE.policy);
    AddRoot(roots.All() + [PROFILE.policy], ordinary, PROFILE.commands);
    assert !Overlap(roots.anchor, elsewhere) by {
      assert roots.anchor[1] != elsewhere[1];
    }
  }
}
